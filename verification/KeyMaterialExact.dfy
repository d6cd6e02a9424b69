/**
  The Keying Material message byte by byte, what the receiver accepts and what acceptance changes,
  in the values of section 3.2.2 of draft-sharabayko-srt-01.
 */
module KeyMaterialExact {
  import opened Packets
  import opened KeyWrap
  import opened KeyMaterial

  // ---------------------------------------------------------------- the key-encrypting key

  /** The last eight bytes, or all when there are fewer. */
  function LastEight(salt: Bytes): Bytes {
    if |salt| > 8 then salt[|salt| - 8..] else salt
  }

  /** 2048 rounds of PBKDF2 over the last 64 bits of the salt. */
  lemma KekIs(pv: Provider, pwd: Bytes, salt: Bytes, n: nat)
    ensures DeriveKek(pv, pwd, salt, n) == pv.pbkdf2(pwd, LastEight(salt), 2048, n)
  {
    assert |salt| <= 8 ==> salt[0..] == salt;
  }

  /** Whatever PBKDF2 is, two derivations agree exactly when passphrase, last 64 salt bits and key length do. */
  lemma SameKekIff(pwd: Bytes, salt: Bytes, n: nat, pwd': Bytes, salt': Bytes, n': nat)
    ensures (forall pv :: DeriveKek(pv, pwd, salt, n) == DeriveKek(pv, pwd', salt', n'))
      <==> pwd == pwd' && LastEight(salt) == LastEight(salt') && n == n'
  {
    hide DeriveKek, LastEight;
    forall pv
      ensures DeriveKek(pv, pwd, salt, n) == pv.pbkdf2(pwd, LastEight(salt), 2048, n)
      ensures DeriveKek(pv, pwd', salt', n') == pv.pbkdf2(pwd', LastEight(salt'), 2048, n')
    {
      KekIs(pv, pwd, salt, n);
      KekIs(pv, pwd', salt', n');
    }
    if forall pv :: DeriveKek(pv, pwd, salt, n) == DeriveKek(pv, pwd', salt', n') {
      var kw := (k: Bytes) => Wrapper((b: Bytes) => b, (b: Bytes) => None);
      var p1 := Provider(kw, (p: Bytes, s: Bytes, i: nat, l: nat) => p, false);
      var p2 := Provider(kw, (p: Bytes, s: Bytes, i: nat, l: nat) => s, false);
      var p3 := Provider(kw, (p: Bytes, s: Bytes, i: nat, l: nat) => seq(l, k => 0), false);
      assert DeriveKek(p1, pwd, salt, n) == DeriveKek(p1, pwd', salt', n');
      assert DeriveKek(p2, pwd, salt, n) == DeriveKek(p2, pwd', salt', n');
      assert |DeriveKek(p3, pwd, salt, n)| == |DeriveKek(p3, pwd', salt', n')|;
    }
  }

  // ---------------------------------------------------------------- the message

  /** The assembled message: the sixteen fixed bytes, the salt, and the wrapped keys with the even one in front. */
  lemma KmLayout(kek: Wrapper, i: nat, mode: Byte, salt: Bytes, sek: Bytes, alt: Option<Bytes>)
    requires i < 2 && |salt| == 16 && KeyLength(|sek|) && (alt.Some? ==> |alt.value| == |sek|)
    ensures var m := KmMessage(kek, i, mode, salt, sek, alt);
      var flags: bv8 := if alt.Some? then 3 else if i == 0 then 1 else 2;
      var cipher: bv8, auth: bv8 := if mode == 4 then 4 else 2, if mode == 4 then 1 else 0;
      && m[..16] == [0x12, 0x20, 0x29, flags, 0, 0, 0, 0, cipher, auth, 2, 0, 0, 0, 4, (|sek| / 4) as bv8]
      && m[16..32] == salt
      && m[32..] == kek.wrap(if alt.None? then sek else if i == 0 then sek + alt.value else alt.value + sek)
  {
    hide KmHeader;
    HeaderLayout(KmFlags(i, alt), mode, |sek|);
    var m, h := KmMessage(kek, i, mode, salt, sek, alt), KmHeader(KmFlags(i, alt), mode, |salt|, |sek|);
    assert m[..16] == h && m[16..32] == salt && m[32..] == kek.wrap(Seks(i, sek, alt));
  }

  lemma HeaderLayout(flags: bv8, mode: Byte, n: nat)
    requires n < 256
    ensures var cipher: bv8, auth: bv8 := if mode == 4 then 4 else 2, if mode == 4 then 1 else 0;
      KmHeader(flags, mode, 16, n) == [0x12, 0x20, 0x29, flags, 0, 0, 0, 0, cipher, auth, 2, 0, 0, 0, 4, (n / 4) as bv8]
  {
    assert Quarter(16) == 4 && Quarter(n) == (n / 4) as bv8;
    hide Quarter;
    var h := KmHeader(flags, mode, 16, n);
    assert forall k :: 0 <= k < 16 ==> h[k] == HeaderByte(k, flags, mode, 16, n);
  }

  /** Keying Material, a data packet with one key flag, or neither. */
  lemma ClassifyExact(msg: Bytes)
    requires |msg| >= 16
    ensures var km := msg[0] == 0x12 && msg[1] == 0x20 && msg[2] == 0x29;
      && (Classify(msg) == 2 <==> km && msg[10] == 2 && (msg[3] & 1 == 1 || msg[3] & 2 == 2))
      && (Classify(msg) == 1 <==> !km && (msg[7] & 0x18 == 0x08 || msg[7] & 0x18 == 0x10))
      && Classify(msg) in {-1, 1, 2}
  {
    FirstByte(msg[0]);
    KeyFlags(msg[3]);
    DataFlags(msg[7]);
  }

  lemma FirstByte(b: bv8)
    ensures b >> 4 == 1 && b & 0xF == 2 <==> b == 0x12
  {
  }

  lemma KeyFlags(b: bv8)
    ensures b & 3 == 0 <==> !(b & 1 == 1 || b & 2 == 2)
  {
  }

  lemma DataFlags(b: bv8)
    ensures (b >> 3) & 3 == 0 <==> b & 0x18 == 0
    ensures (b >> 3) & 3 == 3 <==> b & 0x18 == 0x18
    ensures b & 0x18 == 0 || b & 0x18 == 0x08 || b & 0x18 == 0x10 || b & 0x18 == 0x18
  {
  }

  /** The checks before any state changes, in the values of the bytes. */
  lemma AcceptableBytes(pv: Provider, msg: Bytes)
    ensures Acceptable(pv, msg) <==>
      && |msg| > 16
      && msg[14] <= 4 && (msg[15] == 4 || msg[15] == 6 || msg[15] == 8)
      && |msg| == 16 + 4 * (msg[14] as int) + (if msg[3] & 1 == 1 && msg[3] & 2 == 2 then 8 else 4) * (msg[15] as int) + 8
      && ((msg[8] == 2 && msg[9] == 0) || (msg[8] == 4 && msg[9] == 1 && pv.hasGcm))
      && msg[10] == 2
  {
    if |msg| > 16 {
      ByteRange(msg[14]);
      ByteRange(msg[15]);
      BothFlags(msg[3]);
    }
  }

  lemma BothFlags(b: bv8)
    ensures b & 3 == 3 <==> b & 1 == 1 && b & 2 == 2
  {
  }

  lemma ByteRange(b: bv8)
    ensures b <= 4 <==> b as int <= 4
    ensures b == 4 <==> b as int == 4
    ensures b == 6 <==> b as int == 6
    ensures b == 8 <==> b as int == 8
  {
  }

  // ---------------------------------------------------------------- acceptance

  function SaltIn(msg: Bytes): Bytes
    requires |msg| > 16 && 16 + SaltLen(msg) <= |msg|
  {
    msg[16..16 + SaltLen(msg)]
  }

  /** The key-encrypting key a message is opened with: derived anew when its salt or key length is new to the context. */
  function OpensWith(pv: Provider, pwd: Bytes, s: Rx, i: nat, salt: Bytes, n: nat): Bytes
    requires i < |s.pair|
  {
    if pwd != [] && !(s.pair[i].salt == salt && s.pair[i].sekLen == n) then pv.pbkdf2(pwd, LastEight(salt), 2048, n) else s.kek
  }

  /** The context a message is checked against: that of its key, and for two keys the one not in use, or the odd one. */
  function CheckedAgainst(s: Rx, msg: Bytes): nat
    requires |msg| > 3
  {
    if msg[3] & 3 != 3 then (if msg[3] & 2 == 2 then 1 else 0)
    else if s.cur == Some(1) then 0
    else 1
  }

  lemma TargetIs(s: Rx, msg: Bytes)
    requires |msg| > 3 && RxOk(s)
    ensures Target(s, msg) == CheckedAgainst(s, msg)
  {
    TwoBits(msg[3]);
  }

  lemma TwoBits(b: bv8)
    ensures b & 2 == 2 <==> b & 2 != 0
    ensures b & 3 == 3 ==> b & 2 != 0
  {
  }

  /** The tail of the message is a wrapping under `kek`. */
  ghost predicate WrappedUnder(pv: Provider, kek: Bytes, w: Bytes) {
    exists keys :: Wrappable(|keys|) && w == pv.kw(kek).wrap(keys)
  }

  lemma UnwrapsIff(pv: Provider, kek: Bytes, w: Bytes)
    requires Sound(pv)
    ensures pv.kw(kek).unwrap(w).Some? <==> WrappedUnder(pv, kek, w)
  {
    assert Lawful(pv.kw(kek));
    hide Sound, Lawful;
    if pv.kw(kek).unwrap(w).Some? {
      UnwrapAccepts(pv, kek, w);
    }
    if keys :| Wrappable(|keys|) && w == pv.kw(kek).wrap(keys) {
      UnwrapOfWrapped(pv, kek, keys);
    }
  }

  /**
    A message is accepted if and only if it passes the checks, its cipher is that of the context,
    and its tail is a wrapping under the key-encrypting key it is to be opened with; the other
    answers tell which of these failed, the first one that did.
   */
  lemma AcceptedIff(pv: Provider, pwd: Bytes, s: Rx, msg: Bytes)
    requires Sound(pv) && RxOk(s)
    ensures var ret := ParseKm(pv, pwd, s, msg).1;
      && (ret == -1 <==> !Acceptable(pv, msg))
      && (Acceptable(pv, msg) ==>
            var i, n := CheckedAgainst(s, msg), SekLen(msg);
            && i < 2 && 16 + SaltLen(msg) <= |msg|
            && (ret == -3 <==> s.pair[i].mode != msg[8])
            && (ret == 0 <==>
                  (s.pair[i].mode == msg[8] && WrappedUnder(pv, OpensWith(pv, pwd, s, i, SaltIn(msg), n), msg[16 + SaltLen(msg)..])))
            && ret in {0, -2, -3})
  {
    hide Sound, Acceptable, DeriveKek, HasBoth, KeyIndex, SaltLen, SekLen, LastEight, Install, WrappedUnder, CheckedAgainst;
    if Acceptable(pv, msg) {
      AcceptableParts(pv, msg);
      TargetIs(s, msg);
      var i, n, salt := Target(s, msg), SekLen(msg), SaltIn(msg);
      KekIs(pv, pwd, salt, n);
      UnwrapsIff(pv, OpensWith(pv, pwd, s, i, salt, n), msg[16 + SaltLen(msg)..]);
    }
  }

  /** Which contexts a message has a key for. */
  predicate HasKeyFor(msg: Bytes, j: nat) {
    |msg| > 3 && (HasBoth(msg) || KeyIndex(msg) == j)
  }

  /**
    After acceptance each context the message has a key for is keyed, with the salt and key length
    of the message and the message itself as its cached one; the other context is as before.
   */
  lemma AcceptedFills(pv: Provider, pwd: Bytes, s: Rx, msg: Bytes, j: nat)
    requires Sound(pv) && RxOk(s) && j < 2 && ParseKm(pv, pwd, s, msg).1 == 0
    ensures var t := ParseKm(pv, pwd, s, msg).0;
      && |t.pair| == 2 && t.cur == s.cur && |msg| > 16 && 16 + SaltLen(msg) <= |msg|
      && t.kek == OpensWith(pv, pwd, s, CheckedAgainst(s, msg), SaltIn(msg), SekLen(msg))
      && t.pair[j] == if HasKeyFor(msg, j) then RxCtx(3, s.pair[j].mode, SaltIn(msg), SekLen(msg), t.pair[j].sek, msg) else s.pair[j]
  {
    hide Sound, Acceptable, DeriveKek, HasBoth, KeyIndex, SaltLen, SekLen, LastEight, SaltIn, Install, CheckedAgainst;
    AcceptableParts(pv, msg);
    SaltOf(msg);
    TargetIs(s, msg);
    var i, n, salt := Target(s, msg), SekLen(msg), SaltIn(msg);
    KekIs(pv, pwd, salt, n);
    var u := TakeKek(pv, pwd, s, i, salt, n);
    InstallFills(s, u, i, KeysIn(pv, u.kek, msg).value, salt, n, msg, j);
  }

  /**
    A message refused by the checks changes nothing. One refused later leaves its salt and key
    length in the context it was checked against, and one that does not open also the
    key-encrypting key derived for it; the keys and the other context stay as they are.
   */
  lemma RefusedLeaves(pv: Provider, pwd: Bytes, s: Rx, msg: Bytes)
    requires Sound(pv) && RxOk(s) && ParseKm(pv, pwd, s, msg).1 != 0
    ensures var (t, ret) := ParseKm(pv, pwd, s, msg);
      && |t.pair| == 2 && t.cur == s.cur && (ret == -1 ==> t == s)
      && (ret != -1 ==>
            && |msg| > 16 && 16 + SaltLen(msg) <= |msg| && CheckedAgainst(s, msg) < 2
            && var i, n := CheckedAgainst(s, msg), SekLen(msg);
               var kek := if ret == -3 then s.kek else OpensWith(pv, pwd, s, i, SaltIn(msg), n);
               var fresh_ := ret == -2 && pwd != [] && !(s.pair[i].salt == SaltIn(msg) && s.pair[i].sekLen == n);
               && t.kek == kek && t.pair[1 - i] == s.pair[1 - i]
               && t.pair[i] == s.pair[i].(salt := SaltIn(msg), sekLen := n, status := if fresh_ then 2 else s.pair[i].status))
  {
    hide Sound, Acceptable, DeriveKek, HasBoth, KeyIndex, SaltLen, SekLen, LastEight, SaltIn, Install, CheckedAgainst;
    if Acceptable(pv, msg) {
      AcceptableParts(pv, msg);
      SaltOf(msg);
      TargetIs(s, msg);
      KekIs(pv, pwd, SaltIn(msg), SekLen(msg));
    }
  }

  lemma InstallFills(s: Rx, u: Rx, i: nat, seks: Bytes, salt: Bytes, n: nat, msg: Bytes, j: nat)
    requires |s.pair| == 2 && |u.pair| == 2 && i < 2 && j < 2 && |msg| > 3 && (!HasBoth(msg) ==> i == KeyIndex(msg))
    requires u.pair[1 - i] == s.pair[1 - i] && u.pair[i].salt == salt && u.pair[i].mode == s.pair[i].mode
    ensures var t := Install(u, i, seks, salt, n, msg);
      t.pair[j] == if HasKeyFor(msg, j) then RxCtx(3, s.pair[j].mode, salt, n, t.pair[j].sek, msg) else s.pair[j]
  {
    hide HasBoth, KeyIndex, Pick;
    assert j == i || j == 1 - i;
  }

  lemma SaltOf(msg: Bytes)
    requires |msg| > 16 && 16 + SaltLen(msg) <= |msg|
    ensures SaltIn(msg) == msg[OFS_SALT..OFS_SALT + SaltLen(msg)]
  {
  }
}
