/**
  The Keying Material message of HaiCrypt (section 3.2.2 of draft-sharabayko-srt-01): how the
  sender lays it out, and how the receiver checks it and fills its even and odd contexts.

  PBKDF2 and key wrapping are parameters; the fallback of module KeyWrap is one lawful choice.
 */
module KeyMaterial {
  import opened Packets
  import opened Buffers
  import opened KeyWrap

  const SALT_SZ: nat := 16
  const KEY_MAX_SZ: nat := 32
  const WRAP_SIGN_SZ: nat := 8
  const PBKDF2_SALT_LEN: nat := 8
  const PBKDF2_ITER_CNT: nat := 2048

  const OFS_SALT: nat := 16

  const MODE_CTR: Byte := 2
  const MODE_GCM: Byte := 4
  const AUTH_NONE: Byte := 0
  const AUTH_GCM: Byte := 1
  const SE_TSSRT: Byte := 2
  const BOTH_SEKS: Byte := 3

  const S_SARDY: nat := 2
  const S_KEYED: nat := 3
  const S_ACTIVE: nat := 4
  const S_DEPRECATED: nat := 5

  const PT_MS: int := 1
  const PT_KM: int := 2

  /** Key wrapping under one key-encrypting key. */
  datatype Wrapper = Wrapper(wrap: Bytes -> Bytes, unwrap: Bytes -> Option<Bytes>)

  /** What the crypto library supplies: key wrapping, PBKDF2 (password, salt, iterations, length), and whether it has GCM. */
  datatype Provider = Provider(kw: Bytes -> Wrapper, pbkdf2: (Bytes, Bytes, nat, nat) -> Bytes, hasGcm: bool)

  /** Unwrapping undoes wrapping, and accepts nothing else. */
  ghost predicate Lawful(c: Wrapper) {
    && (forall k :: Wrappable(|k|) ==> |c.wrap(k)| == |k| + WRAP_SIGN_SZ && c.unwrap(c.wrap(k)) == Some(k))
    && (forall w :: c.unwrap(w).Some? ==>
          var k := c.unwrap(w).value; Wrappable(|k|) && |w| == |k| + WRAP_SIGN_SZ && c.wrap(k) == w)
  }

  ghost predicate Sound(pv: Provider) {
    forall k :: Lawful(pv.kw(k))
  }

  /** The library that has only AES and relies on the fallback. */
  function Fallback(aes: Bytes -> Cipher, pbkdf2: (Bytes, Bytes, nat, nat) -> Bytes, hasGcm: bool): Provider {
    Provider((kek: Bytes) => Wrapper((k: Bytes) => if Wrappable(|k|) then Wrapped(aes(kek), k) else [],
                                     (w: Bytes) => Unwrapped(aes(kek), w)),
             pbkdf2, hasGcm)
  }

  /** The fallback is lawful over any permutation of blocks. */
  lemma FallbackIsSound(aes: Bytes -> Cipher, pbkdf2: (Bytes, Bytes, nat, nat) -> Bytes, hasGcm: bool)
    requires forall k :: Permutation(aes(k))
    ensures Sound(Fallback(aes, pbkdf2, hasGcm))
  {
    hide Permutation, Wrapped, Unwrapped;
    var pv := Fallback(aes, pbkdf2, hasGcm);
    forall kek
      ensures Lawful(pv.kw(kek))
    {
      var c := pv.kw(kek);
      assert Permutation(aes(kek));
      forall k | Wrappable(|k|)
        ensures |c.wrap(k)| == |k| + WRAP_SIGN_SZ && c.unwrap(c.wrap(k)) == Some(k)
      {
        UnwrapOfWrap(aes(kek), k);
      }
      forall w | c.unwrap(w).Some?
        ensures var k := c.unwrap(w).value; Wrappable(|k|) && |w| == |k| + WRAP_SIGN_SZ && c.wrap(k) == w
      {
        UnwrapOnlyWrapped(aes(kek), w);
        UnwrapLength(aes(kek), w);
      }
    }
  }

  lemma UnwrapLength(c: Cipher, w: Bytes)
    requires Unwrapped(c, w).Some?
    ensures Wrappable(|Unwrapped(c, w).value|) && |Unwrapped(c, w).value| == |w| - 8
  {
    hide UnwrapRounds;
  }

  lemma UnwrapOfWrapped(pv: Provider, kek: Bytes, k: Bytes)
    requires Sound(pv) && Wrappable(|k|)
    ensures var c := pv.kw(kek); |c.wrap(k)| == |k| + WRAP_SIGN_SZ && c.unwrap(c.wrap(k)) == Some(k)
  {
    assert Lawful(pv.kw(kek));
  }

  lemma UnwrapAccepts(pv: Provider, kek: Bytes, w: Bytes)
    requires Sound(pv) && pv.kw(kek).unwrap(w).Some?
    ensures var c := pv.kw(kek); var k := c.unwrap(w).value; Wrappable(|k|) && |w| == |k| + WRAP_SIGN_SZ && c.wrap(k) == w
  {
    assert Lawful(pv.kw(kek));
  }

  predicate KeyLength(n: int) {
    n == 16 || n == 24 || n == 32
  }

  predicate Mode(pv: Provider, mode: Byte) {
    mode == MODE_CTR || (mode == MODE_GCM && pv.hasGcm)
  }

  /** The key-encrypting key of a passphrase: PBKDF2 over the last 64 bits of the salt. */
  function DeriveKek(pv: Provider, pwd: Bytes, salt: Bytes, sekLen: nat): Bytes {
    var n := if |salt| >= PBKDF2_SALT_LEN then PBKDF2_SALT_LEN else |salt|;
    pv.pbkdf2(pwd, salt[|salt| - n..], PBKDF2_ITER_CNT, sekLen)
  }

  /** The key flag of context 0 (even) and 1 (odd). */
  function FlagOf(i: nat): Byte {
    if i == 0 then 1 else 2
  }

  // ---------------------------------------------------------------- assembling

  /** The keys in the order they are wrapped: the even one first when there are two. */
  function Seks(i: nat, sek: Bytes, alt: Option<Bytes>): Bytes {
    if alt.None? then sek else if i == 0 then sek + alt.value else alt.value + sek
  }

  function KmFlags(i: nat, alt: Option<Bytes>): Byte {
    if alt.Some? then BOTH_SEKS else FlagOf(i)
  }

  /** Lengths travel in units of four bytes. */
  function Quarter(len: nat): Byte
    requires len < 256
  {
    (len / 4) as bv8
  }

  /** Byte `k` of the fixed part: the bytes not listed are zero. */
  function HeaderByte(k: nat, flags: Byte, mode: Byte, saltLen: nat, sekLen: nat): Byte
    requires saltLen < 256 && sekLen < 256
  {
    match k
    case 0 => 0x12
    case 1 => 0x20
    case 2 => 0x29
    case 3 => flags
    case 8 => if mode == MODE_GCM then MODE_GCM else MODE_CTR
    case 9 => if mode == MODE_GCM then AUTH_GCM else AUTH_NONE
    case 10 => SE_TSSRT
    case 14 => Quarter(saltLen)
    case 15 => Quarter(sekLen)
    case _ => 0
  }

  function KmHeader(flags: Byte, mode: Byte, saltLen: nat, sekLen: nat): (h: Bytes)
    requires saltLen < 256 && sekLen < 256
    ensures |h| == OFS_SALT
  {
    seq(OFS_SALT, k requires 0 <= k < OFS_SALT => HeaderByte(k, flags, mode, saltLen, sekLen))
  }

  function KmMessage(kek: Wrapper, i: nat, mode: Byte, salt: Bytes, sek: Bytes, alt: Option<Bytes>): (m: Bytes)
    requires |salt| == SALT_SZ && KeyLength(|sek|) && (alt.Some? ==> |alt.value| == |sek|)
    ensures |m| >= OFS_SALT + SALT_SZ
  {
    KmHeader(KmFlags(i, alt), mode, |salt|, |sek|) + salt + kek.wrap(Seks(i, sek, alt))
  }

  /** hcryptMsg_SRT_ResetCache for Keying Material: version, type, signature and key flags. */
  method ResetCache(km: array<Byte>, flags: Byte)
    requires km.Length >= OFS_SALT
    modifies km
    ensures km[0] == 0x12 && km[1] == 0x20 && km[2] == 0x29 && km[3] == flags
    ensures forall k :: 4 <= k < km.Length ==> km[k] == old(km[k])
  {
    km[0] := 0x12;
    km[1] := 0x20;
    km[2] := 0x29;
    km[3] := flags;
  }

  method SetFields(km: array<Byte>, mode: Byte, saltLen: nat, sekLen: nat)
    requires km.Length >= OFS_SALT && saltLen < 256 && sekLen < 256
    modifies km
    ensures km[8] == (if mode == MODE_GCM then MODE_GCM else MODE_CTR) && km[9] == (if mode == MODE_GCM then AUTH_GCM else AUTH_NONE)
    ensures km[10] == SE_TSSRT && km[14] == Quarter(saltLen) && km[15] == Quarter(sekLen)
    ensures forall k :: 0 <= k < km.Length && k !in {8, 9, 10, 14, 15} ==> km[k] == old(km[k])
  {
    hide Quarter;
    km[8] := if mode == MODE_GCM then MODE_GCM else MODE_CTR;
    km[9] := if mode == MODE_GCM then AUTH_GCM else AUTH_NONE;
    km[10] := SE_TSSRT;
    km[14] := Quarter(saltLen);
    km[15] := Quarter(sekLen);
  }

  /** The fixed part of the message, written into a wiped buffer. */
  method FillHeader(km: array<Byte>, flags: Byte, mode: Byte, saltLen: nat, sekLen: nat)
    requires km.Length >= OFS_SALT && saltLen < 256 && sekLen < 256
    modifies km
    ensures km[..OFS_SALT] == KmHeader(flags, mode, saltLen, sekLen)
  {
    hide Quarter;
    Wipe(km);
    ResetCache(km, flags);
    SetFields(km, mode, saltLen, sekLen);
    forall k | 0 <= k < OFS_SALT
      ensures km[k] == HeaderByte(k, flags, mode, saltLen, sekLen)
    {
    }
  }

  /** hcryptCtx_Tx_AsmKM. */
  method AsmKM(pv: Provider, kek: Bytes, i: nat, mode: Byte, salt: Bytes, sek: Bytes, alt: Option<Bytes>) returns (msg: Bytes)
    requires Sound(pv) && |salt| == SALT_SZ && KeyLength(|sek|) && (alt.Some? ==> |alt.value| == |sek|)
    ensures msg == KmMessage(pv.kw(kek), i, mode, salt, sek, alt)
  {
    hide KmHeader, Sound;
    var cnt := if alt.None? then 1 else 2;
    var km := new bv8[OFS_SALT + |salt| + |sek| * cnt + WRAP_SIGN_SZ];
    FillHeader(km, if cnt == 2 then BOTH_SEKS else FlagOf(i), mode, |salt|, |sek|);
    ghost var h := km[..OFS_SALT];
    CopyInto(km, OFS_SALT, salt);
    assert km[..OFS_SALT + |salt|] == h + salt;
    var seks := if cnt == 1 then sek else if FlagOf(i) == 1 then sek + alt.value else alt.value + sek;
    var w := pv.kw(kek).wrap(seks);
    SeksWrappable(i, sek, alt);
    UnwrapOfWrapped(pv, kek, seks);
    CopyInto(km, OFS_SALT + |salt|, w);
    msg := km[..];
    assert msg == h + salt + w;
  }

  // ---------------------------------------------------------------- receiving

  /** One of the receiver's two contexts; `sekLen` is set before the key itself is known. */
  datatype RxCtx = RxCtx(status: nat, mode: Byte, salt: Bytes, sekLen: nat, sek: Bytes, km: Bytes)

  /** Both contexts, the one of the last data packet, and the single slot of the key-encrypting key. */
  datatype Rx = Rx(pair: seq<RxCtx>, cur: Option<nat>, kek: Bytes)

  predicate RxOk(s: Rx) {
    |s.pair| == 2 && (s.cur.Some? ==> s.cur.value < 2)
  }

  function SaltLen(msg: Bytes): nat
    requires |msg| > OFS_SALT
  {
    msg[14] as int * 4
  }

  function SekLen(msg: Bytes): nat
    requires |msg| > OFS_SALT
  {
    msg[15] as int * 4
  }

  predicate HasBoth(msg: Bytes) {
    |msg| > 3 && msg[3] & 3 == 3
  }

  function KeyIndex(msg: Bytes): (i: nat)
    requires |msg| > 3
    ensures i < 2
  {
    if msg[3] & 2 != 0 then 1 else 0
  }

  /** The length of the key or the two keys of a message. */
  function KeyBytes(msg: Bytes): nat
    requires |msg| > OFS_SALT
  {
    if HasBoth(msg) then 2 * SekLen(msg) else SekLen(msg)
  }

  /** The checks that come before any state changes. */
  predicate Acceptable(pv: Provider, msg: Bytes) {
    && |msg| > OFS_SALT
    && SaltLen(msg) <= SALT_SZ && KeyLength(SekLen(msg))
    && |msg| == OFS_SALT + SaltLen(msg) + KeyBytes(msg) + WRAP_SIGN_SZ
    && Mode(pv, msg[8])
    && msg[9] == (if msg[8] == MODE_GCM then AUTH_GCM else AUTH_NONE)
    && msg[10] == SE_TSSRT
  }

  /** Of two keys the first is the even one. */
  function Pick(seks: Bytes, i: nat, n: nat): Bytes {
    if |seks| == 2 * n && i == 1 then seks[n..] else Take(seks, n)
  }

  /** The context a message updates first. */
  function Target(s: Rx, msg: Bytes): nat
    requires |msg| > 3
  {
    if HasBoth(msg) && s.cur.Some? then 1 - (if s.cur.value == 0 then 0 else 1) else KeyIndex(msg)
  }

  /** Salt and key length are new to context `i`. */
  predicate NewKek(s: Rx, i: nat, salt: Bytes, sekLen: nat)
    requires i < |s.pair|
  {
    salt != s.pair[i].salt || sekLen != s.pair[i].sekLen
  }

  /** Context `i` takes over salt and key length. */
  function TakeSalt(s: Rx, i: nat, salt: Bytes, n: nat): Rx
    requires i < |s.pair|
  {
    s.(pair := s.pair[i := s.pair[i].(salt := salt, sekLen := n)])
  }

  /** And, for a passphrase, a salt or length new to the context brings a new key-encrypting key. */
  function TakeKek(pv: Provider, pwd: Bytes, s: Rx, i: nat, salt: Bytes, n: nat): (t: Rx)
    requires i < |s.pair|
    ensures |t.pair| == |s.pair| && t.cur == s.cur
  {
    if pwd != [] && NewKek(s, i, salt, n) then
      s.(pair := s.pair[i := s.pair[i].(salt := salt, sekLen := n, status := S_SARDY)], kek := DeriveKek(pv, pwd, salt, n))
    else TakeSalt(s, i, salt, n)
  }

  /** Context `i` gets its key out of `seks`; so does the other one when there are two. */
  function Install(s: Rx, i: nat, seks: Bytes, salt: Bytes, n: nat, msg: Bytes): (t: Rx)
    requires |s.pair| == 2 && i < 2
    ensures |t.pair| == 2 && t.cur == s.cur && t.kek == s.kek
  {
    var one := s.pair[i].(status := S_KEYED, sekLen := n, sek := Pick(seks, i, n), km := msg);
    var other := s.pair[1 - i].(status := S_KEYED, sekLen := n, sek := Pick(seks, 1 - i, n), km := msg, salt := salt);
    s.(pair := s.pair[i := one][1 - i := if HasBoth(msg) then other else s.pair[1 - i]])
  }

  /** hcryptCtx_Rx_ParseKM: new state and return code. An empty `pwd` means a preshared key. */
  function ParseKm(pv: Provider, pwd: Bytes, s: Rx, msg: Bytes): (Rx, int)
    requires RxOk(s)
  {
    if !Acceptable(pv, msg) then (s, -1)
    else
      var i, n, salt := Target(s, msg), SekLen(msg), msg[OFS_SALT..OFS_SALT + SaltLen(msg)];
      if s.pair[i].mode != msg[8] then (TakeSalt(s, i, salt, n), -3)
      else
        var t := TakeKek(pv, pwd, s, i, salt, n);
        var seks := KeysIn(pv, t.kek, msg);
        if seks.None? then (t, -2) else (Install(t, i, seks.value, salt, n, msg), 0)
  }

  /** The unwrapped keys of a message. */
  function KeysIn(pv: Provider, kek: Bytes, msg: Bytes): Option<Bytes>
    requires Acceptable(pv, msg)
  {
    pv.kw(kek).unwrap(msg[OFS_SALT + SaltLen(msg)..])
  }

  /** hcryptMsg_SRT_ParseMsg. */
  function Classify(msg: Bytes): int
    requires |msg| >= OFS_SALT
  {
    if msg[0] >> 4 == 1 && msg[0] & 0xF == PT_KM as bv8 && msg[1] == 0x20 && msg[2] == 0x29 then
      if msg[10] != SE_TSSRT || msg[3] & 3 == 0 then -1 else PT_KM
    else
      var flags := (msg[7] >> 3) & 3;
      if flags == 0 || flags == 3 then -1 else PT_MS
  }

  /** The context whose cached message a Keying Material message is compared with: read at the data packet's place. */
  function CacheIndex(msg: Bytes): nat
    requires |msg| >= OFS_SALT
  {
    if (msg[7] >> 3) & 2 != 0 then 1 else 0
  }

  /** The Keying Material branch of HaiCrypt_Rx_Process. */
  function ProcessKm(pv: Provider, pwd: Bytes, s: Rx, msg: Bytes): (Rx, int)
    requires RxOk(s) && |msg| >= OFS_SALT && Classify(msg) == PT_KM
  {
    var c := s.pair[CacheIndex(msg)];
    if c.status < S_KEYED || c.km != msg then ParseKm(pv, pwd, s, msg) else (s, 0)
  }

  // ---------------------------------------------------------------- round trip

  /** The key-encrypting key in the receiver's slot is the sender's, or will be derived before it is used. */
  predicate KekReady(pv: Provider, pwd: Bytes, s: Rx, salt: Bytes, n: nat, kek: Bytes)
    requires RxOk(s)
  {
    && (pwd != [] ==> kek == DeriveKek(pv, pwd, salt, n))
    && ((pwd != [] && NewKek(s, 0, salt, n)) || s.kek == kek)
    && ((pwd != [] && NewKek(s, 1, salt, n)) || s.kek == kek)
  }

  lemma HeaderBits(i: nat, alt: Option<Bytes>, mode: Byte, n: nat)
    requires i < 2 && (mode == MODE_CTR || mode == MODE_GCM) && KeyLength(n)
    ensures var h := KmHeader(KmFlags(i, alt), mode, SALT_SZ, n);
      && (HasBoth(h) <==> alt.Some?) && (alt.None? ==> KeyIndex(h) == i)
      && h[14] as int * 4 == SALT_SZ && h[15] as int * 4 == n && h[8] == mode
      && h[9] == (if mode == MODE_GCM then AUTH_GCM else AUTH_NONE) && h[10] == SE_TSSRT
      && Classify(h) == PT_KM && CacheIndex(h) == 0
  {
  }

  /** The checks look at the header alone, besides the length. */
  lemma HeaderDecides(pv: Provider, h: Bytes, m: Bytes)
    requires |h| == OFS_SALT && |m| > OFS_SALT && m[..OFS_SALT] == h
    ensures HasBoth(m) == HasBoth(h) && KeyIndex(m) == KeyIndex(h)
    ensures SaltLen(m) == h[14] as int * 4 && SekLen(m) == h[15] as int * 4
    ensures m[8] == h[8] && m[9] == h[9] && m[10] == h[10]
    ensures Classify(m) == Classify(h) && CacheIndex(m) == CacheIndex(h)
  {
    assert forall k :: 0 <= k < OFS_SALT ==> m[k] == m[..OFS_SALT][k] == h[k];
  }

  /** Every check passes on an assembled message, and its parts are found where the receiver looks. */
  lemma KmAcceptable(pv: Provider, kek: Bytes, i: nat, mode: Byte, salt: Bytes, sek: Bytes, alt: Option<Bytes>)
    requires Sound(pv) && i < 2 && Mode(pv, mode) && |salt| == SALT_SZ && KeyLength(|sek|) && (alt.Some? ==> |alt.value| == |sek|)
    ensures var m := KmMessage(pv.kw(kek), i, mode, salt, sek, alt);
      && Acceptable(pv, m) && (HasBoth(m) <==> alt.Some?) && (alt.None? ==> KeyIndex(m) == i)
      && m[8] == mode && SaltLen(m) == SALT_SZ && SekLen(m) == |sek|
      && m[OFS_SALT..OFS_SALT + SALT_SZ] == salt && m[OFS_SALT + SALT_SZ..] == pv.kw(kek).wrap(Seks(i, sek, alt))
      && Classify(m) == PT_KM && CacheIndex(m) == 0
  {
    hide Sound, KmHeader, SaltLen, SekLen, HasBoth, KeyIndex, Classify, CacheIndex;
    var h := KmHeader(KmFlags(i, alt), mode, SALT_SZ, |sek|);
    var m := KmMessage(pv.kw(kek), i, mode, salt, sek, alt);
    SeksWrappable(i, sek, alt);
    UnwrapOfWrapped(pv, kek, Seks(i, sek, alt));
    HeaderBits(i, alt, mode, |sek|);
    assert m[..OFS_SALT] == h;
    HeaderDecides(pv, h, m);
  }

  /** Context `j` picks its own key out of the wrapped ones. */
  lemma PickSeks(i: nat, sek: Bytes, alt: Option<Bytes>)
    requires i < 2 && |sek| > 0 && (alt.Some? ==> |alt.value| == |sek|)
    ensures Pick(Seks(i, sek, alt), i, |sek|) == sek
    ensures alt.Some? ==> Pick(Seks(i, sek, alt), 1 - i, |sek|) == alt.value
  {
  }

  function Keyed(c: RxCtx, salt: Bytes, sek: Bytes, km: Bytes): RxCtx {
    c.(status := S_KEYED, salt := salt, sekLen := |sek|, sek := sek, km := km)
  }

  /**
    What AsmKM builds passes every check of ParseKM under the same secret and mode, whichever
    context the receiver used last, and puts each key and the salt into the context of its
    parity; a message with one key leaves the other context alone.
   */
  lemma KmRoundTrip(pv: Provider, pwd: Bytes, s: Rx, kek: Bytes, i: nat, mode: Byte, salt: Bytes, sek: Bytes, alt: Option<Bytes>)
    requires Sound(pv) && RxOk(s) && i < 2 && Mode(pv, mode) && s.pair[0].mode == s.pair[1].mode == mode
    requires |salt| == SALT_SZ && KeyLength(|sek|) && (alt.Some? ==> |alt.value| == |sek|)
    requires KekReady(pv, pwd, s, salt, |sek|, kek)
    ensures var m := KmMessage(pv.kw(kek), i, mode, salt, sek, alt);
      && Classify(m) == PT_KM
      && ParseKm(pv, pwd, s, m) ==
           (Rx(s.pair[i := Keyed(s.pair[i], salt, sek, m)]
                     [1 - i := if alt.None? then s.pair[1 - i] else Keyed(s.pair[1 - i], salt, alt.value, m)],
               s.cur, kek), 0)
      && KekReady(pv, pwd, ParseKm(pv, pwd, s, m).0, salt, |sek|, kek)
  {
    hide Sound, KmMessage, Classify, HasBoth, ParseKm, Install, TakeKek, Seks;
    var m := KmMessage(pv.kw(kek), i, mode, salt, sek, alt);
    var tgt := Target(s, m);
    var t := TakeKek(pv, pwd, s, tgt, salt, |sek|);
    KmParsed(pv, pwd, s, kek, i, mode, salt, sek, alt);
    KmInstalled(s, t, tgt, m, i, salt, sek, alt);
    var r := ParseKm(pv, pwd, s, m).0;
    SamePair(r.pair, s.pair[i := Keyed(s.pair[i], salt, sek, m)]
                           [1 - i := if alt.None? then s.pair[1 - i] else Keyed(s.pair[1 - i], salt, alt.value, m)], i);
  }

  /** An assembled message is accepted, and its keys are installed starting at the target. */
  lemma KmParsed(pv: Provider, pwd: Bytes, s: Rx, kek: Bytes, i: nat, mode: Byte, salt: Bytes, sek: Bytes, alt: Option<Bytes>)
    requires Sound(pv) && RxOk(s) && i < 2 && Mode(pv, mode) && s.pair[0].mode == s.pair[1].mode == mode
    requires |salt| == SALT_SZ && KeyLength(|sek|) && (alt.Some? ==> |alt.value| == |sek|)
    requires KekReady(pv, pwd, s, salt, |sek|, kek)
    ensures var m := KmMessage(pv.kw(kek), i, mode, salt, sek, alt); var tgt := Target(s, m);
      && Classify(m) == PT_KM && (HasBoth(m) <==> alt.Some?) && tgt < 2 && (alt.None? ==> tgt == i)
      && var t := TakeKek(pv, pwd, s, tgt, salt, |sek|);
         t.kek == kek && t.cur == s.cur && t.pair[1 - tgt] == s.pair[1 - tgt]
         && Keyed(t.pair[tgt], salt, sek, m) == Keyed(s.pair[tgt], salt, sek, m)
         && (alt.Some? ==> Keyed(t.pair[tgt], salt, alt.value, m) == Keyed(s.pair[tgt], salt, alt.value, m))
         && t.pair[tgt].salt == salt
         && ParseKm(pv, pwd, s, m) == (Install(t, tgt, Seks(i, sek, alt), salt, |sek|, m), 0)
  {
    hide Sound, Acceptable, KmMessage, Pick, Seks, Classify, SaltLen, SekLen, HasBoth, KeyIndex, DeriveKek, Install;
    KmAcceptable(pv, kek, i, mode, salt, sek, alt);
    SeksWrappable(i, sek, alt);
    UnwrapOfWrapped(pv, kek, Seks(i, sek, alt));
  }

  /** Installing the keys of a message fills each context with its own. */
  lemma KmInstalled(s: Rx, t: Rx, tgt: nat, m: Bytes, i: nat, salt: Bytes, sek: Bytes, alt: Option<Bytes>)
    requires |s.pair| == 2 && |t.pair| == 2 && tgt < 2 && i < 2 && (alt.None? ==> tgt == i) && (HasBoth(m) <==> alt.Some?)
    requires |sek| > 0 && (alt.Some? ==> |alt.value| == |sek|) && t.pair[1 - tgt] == s.pair[1 - tgt] && t.pair[tgt].salt == salt
    requires Keyed(t.pair[tgt], salt, sek, m) == Keyed(s.pair[tgt], salt, sek, m)
    requires alt.Some? ==> Keyed(t.pair[tgt], salt, alt.value, m) == Keyed(s.pair[tgt], salt, alt.value, m)
    ensures var r := Install(t, tgt, Seks(i, sek, alt), salt, |sek|, m);
      && r.pair[i] == Keyed(s.pair[i], salt, sek, m)
      && r.pair[1 - i] == if alt.None? then s.pair[1 - i] else Keyed(s.pair[1 - i], salt, alt.value, m)
  {
    hide HasBoth, Pick, Seks;
    PickSeks(i, sek, alt);
    assert tgt == i || tgt == 1 - i;
  }

  lemma SeksWrappable(i: nat, sek: Bytes, alt: Option<Bytes>)
    requires KeyLength(|sek|) && (alt.Some? ==> |alt.value| == |sek|)
    ensures Wrappable(|Seks(i, sek, alt)|)
  {
  }

  /** Two equal messages of one session carry the same keys. */
  lemma KmInjective(pv: Provider, kek: Bytes, mode: Byte, salt: Bytes,
                    i: nat, sek: Bytes, alt: Option<Bytes>, i': nat, sek': Bytes, alt': Option<Bytes>)
    requires Sound(pv) && Mode(pv, mode) && |salt| == SALT_SZ && i < 2 && i' < 2
    requires KeyLength(|sek|) && |sek'| == |sek| && (alt.Some? ==> |alt.value| == |sek|) && (alt'.Some? ==> |alt'.value| == |sek|)
    requires KmMessage(pv.kw(kek), i, mode, salt, sek, alt) == KmMessage(pv.kw(kek), i', mode, salt, sek', alt')
    ensures alt.Some? == alt'.Some? && (alt.None? ==> i == i') && Seks(i, sek, alt) == Seks(i', sek', alt')
  {
    hide Sound, Acceptable, KmMessage, Seks, Classify, SaltLen, SekLen, HasBoth, KeyIndex;
    KmAcceptable(pv, kek, i, mode, salt, sek, alt);
    KmAcceptable(pv, kek, i', mode, salt, sek', alt');
    SeksWrappable(i, sek, alt);
    SeksWrappable(i', sek', alt');
    UnwrapOfWrapped(pv, kek, Seks(i, sek, alt));
    UnwrapOfWrapped(pv, kek, Seks(i', sek', alt'));
  }

  /** The tail of the message is the wrapping of `seks`. */
  predicate CarriesKeys(pv: Provider, t: Rx, msg: Bytes, seks: Bytes) {
    && |msg| > OFS_SALT && OFS_SALT + SaltLen(msg) <= |msg| && Wrappable(|seks|)
    && msg[OFS_SALT + SaltLen(msg)..] == pv.kw(t.kek).wrap(seks)
  }

  /**
    Nothing else gets in: whatever the bytes, a message is accepted only if its tail is the
    wrapping of the keys stored, and a message that is refused changes no key.
   */
  lemma AcceptedIsWrapped(pv: Provider, pwd: Bytes, s: Rx, msg: Bytes)
    requires Sound(pv) && RxOk(s)
    ensures var (t, ret) := ParseKm(pv, pwd, s, msg);
      && RxOk(t) && t.cur == s.cur
      && (ret != 0 ==> t.pair[0].sek == s.pair[0].sek && t.pair[1].sek == s.pair[1].sek)
      && (ret == 0 ==> Acceptable(pv, msg))
      && (ret == 0 && HasBoth(msg) ==> CarriesKeys(pv, t, msg, t.pair[0].sek + t.pair[1].sek))
      && (ret == 0 && !HasBoth(msg) ==>
            CarriesKeys(pv, t, msg, t.pair[KeyIndex(msg)].sek) && t.pair[1 - KeyIndex(msg)] == s.pair[1 - KeyIndex(msg)])
  {
    hide Sound, DeriveKek, Acceptable, HasBoth, KeyIndex, SaltLen, SekLen, Pick;
    var (t, ret) := ParseKm(pv, pwd, s, msg);
    if ret == 0 {
      AcceptableParts(pv, msg);
      UnwrapAccepts(pv, t.kek, msg[OFS_SALT + SaltLen(msg)..]);
      PickHalves(KeysIn(pv, t.kek, msg).value, SekLen(msg));
    }
  }

  lemma PickHalves(seks: Bytes, n: nat)
    requires n > 0 && (|seks| == n || |seks| == 2 * n)
    ensures |seks| == 2 * n ==> Pick(seks, 0, n) + Pick(seks, 1, n) == seks
    ensures |seks| == n ==> Pick(seks, 0, n) == Pick(seks, 1, n) == seks
  {
  }

  // ---------------------------------------------------------------- the receiving session

  /** Both contexts as HaiCrypt_Create leaves them: configured, without a key. */
  function RxInitial(mode: Byte, kek: Bytes): Rx {
    var c := RxCtx(S_SARDY, mode, [], 0, [], []);
    Rx([c, c], None, kek)
  }

  class RxSession {
    const pv: Provider
    const pwd: Bytes
    var pair: seq<RxCtx>
    var cur: Option<nat>
    var kek: Bytes

    ghost predicate Valid() reads this {
      Sound(pv) && RxOk(View())
    }

    ghost function View(): Rx reads this {
      Rx(pair, cur, kek)
    }

    /** `pwd` is empty and `kek` the secret for a preshared key. */
    constructor (pv: Provider, pwd: Bytes, kek: Bytes, mode: Byte)
      requires Sound(pv)
      ensures Valid() && this.pv == pv && this.pwd == pwd && View() == RxInitial(mode, kek)
    {
      this.pv, this.pwd, this.kek, cur := pv, pwd, kek, None;
      var c := RxCtx(S_SARDY, mode, [], 0, [], []);
      pair := [c, c];
    }

    method GenSecret(i: nat)
      requires Valid() && i < 2
      modifies this`kek
      ensures kek == DeriveKek(pv, pwd, pair[i].salt, pair[i].sekLen)
    {
      var salt := pair[i].salt;
      var n := if |salt| >= PBKDF2_SALT_LEN then PBKDF2_SALT_LEN else |salt|;
      kek := pv.pbkdf2(pwd, salt[|salt| - n..], PBKDF2_ITER_CNT, pair[i].sekLen);
    }

    method Rekey(i: nat, sek: Bytes, msg: Bytes)
      requires Valid() && i < 2
      modifies this`pair
      ensures pair == old(pair)[i := old(pair)[i].(sek := sek, sekLen := |sek|, status := S_KEYED, km := msg)]
    {
      pair := pair[i := pair[i].(sek := sek, sekLen := |sek|, status := S_KEYED)];
      pair := pair[i := pair[i].(km := msg)];
    }

    method Store(i: nat, seks: Bytes, salt: Bytes, n: nat, msg: Bytes)
      requires Valid() && i < 2 && KeyLength(n) && |seks| == if HasBoth(msg) then 2 * n else n
      modifies this`pair
      ensures View() == Install(old(View()), i, seks, salt, n, msg)
    {
      hide HasBoth;
      Rekey(i, Pick(seks, i, n), msg);
      if HasBoth(msg) {
        pair := pair[1 - i := pair[1 - i].(salt := salt)];
        Rekey(1 - i, Pick(seks, 1 - i, n), msg);
      }
      SamePair(pair, Install(old(View()), i, seks, salt, n, msg).pair, i);
    }

    /** Salt, key length and, where they are new, the key-encrypting key. */
    method NoteSalt(i: nat, salt: Bytes, n: nat) returns (derive: bool)
      requires Valid() && i < 2
      modifies this`pair
      ensures derive == NewKek(old(View()), i, salt, n) && View() == TakeSalt(old(View()), i, salt, n)
    {
      derive := false;
      if salt != pair[i].salt {
        pair := pair[i := pair[i].(salt := salt)];
        derive := true;
      }
      if n != pair[i].sekLen {
        pair := pair[i := pair[i].(sekLen := n)];
        derive := true;
      }
      SamePair(pair, TakeSalt(old(View()), i, salt, n).pair, i);
    }

    method RenewKek(i: nat, derive: bool)
      requires Valid() && i < 2
      modifies this`pair, this`kek
      ensures View() == if pwd != [] && derive
        then old(View()).(pair := old(pair)[i := old(pair)[i].(status := S_SARDY)],
                          kek := DeriveKek(pv, pwd, old(pair)[i].salt, old(pair)[i].sekLen))
        else old(View())
    {
      if pwd != [] && derive {
        GenSecret(i);
        pair := pair[i := pair[i].(status := S_SARDY)];
      }
    }

    method ParseKM(msg: Bytes) returns (ret: int)
      requires Valid()
      modifies this`pair, this`kek
      ensures Valid() && (View(), ret) == ParseKm(pv, pwd, old(View()), msg)
    {
      hide Sound, Acceptable, HasBoth, DeriveKek, Pick, KeyIndex, SaltLen, SekLen, Install;
      var ok := Check(msg);
      if !ok {
        return -1;
      }
      AcceptableParts(pv, msg);
      var i, n, salt := Target(Rx(pair, cur, kek), msg), SekLen(msg), msg[OFS_SALT..OFS_SALT + SaltLen(msg)];
      var derive := NoteSalt(i, salt, n);
      if pair[i].mode != msg[8] {
        return -3;
      }
      RenewKek(i, derive);
      SamePair(pair, TakeKek(pv, pwd, old(View()), i, salt, n).pair, i);
      var w := msg[OFS_SALT + |salt|..];
      var seks := pv.kw(kek).unwrap(w);
      if seks.None? {
        return -2;
      }
      UnwrapAccepts(pv, kek, w);
      Store(i, seks.value, salt, n, msg);
      ret := 0;
    }

    /** The checks on the message alone. */
    method Check(msg: Bytes) returns (ok: bool)
      ensures ok == Acceptable(pv, msg)
    {
      if |msg| <= OFS_SALT {
        return false;
      }
      var saltLen, sekLen := SaltLen(msg), SekLen(msg);
      if saltLen > SALT_SZ || sekLen > KEY_MAX_SZ {
        return false;
      }
      if sekLen != 16 && sekLen != 24 && sekLen != 32 {
        return false;
      }
      var cnt := if HasBoth(msg) then 2 else 1;
      if |msg| != OFS_SALT + saltLen + cnt * sekLen + WRAP_SIGN_SZ {
        return false;
      }
      if msg[8] != MODE_CTR && msg[8] != MODE_GCM {
        return false;
      }
      if !pv.hasGcm && msg[8] == MODE_GCM {
        return false;
      }
      if msg[8] == MODE_GCM && msg[9] != AUTH_GCM {
        return false;
      }
      if msg[8] == MODE_CTR && msg[9] != AUTH_NONE {
        return false;
      }
      return msg[10] == SE_TSSRT;
    }

    method ProcessKM(msg: Bytes) returns (ret: int)
      requires Valid() && |msg| >= OFS_SALT && Classify(msg) == PT_KM
      modifies this`pair, this`kek
      ensures Valid() && (View(), ret) == ProcessKm(pv, pwd, old(View()), msg)
    {
      hide ParseKm, Classify;
      var c := pair[CacheIndex(msg)];
      if c.status < S_KEYED || |msg| != |c.km| || c.km != msg {
        ret := ParseKM(msg);
      } else {
        ret := 0;
      }
    }

    /** HaiCrypt_Rx_Data: the context of the packet's parity becomes current; its key decrypts if there is one. */
    method RxData(parity: nat) returns (key: Option<Bytes>)
      requires Valid() && parity < 2
      modifies this`cur
      ensures Valid() && View() == old(View()).(cur := Some(parity)) && key == KeyFor(View(), parity)
    {
      cur := Some(parity);
      key := if pair[parity].status >= S_KEYED then Some(pair[parity].sek) else None;
    }
  }

  /** The key a data packet of that parity is decrypted with. */
  function KeyFor(s: Rx, parity: nat): Option<Bytes>
    requires RxOk(s) && parity < 2
  {
    if s.pair[parity].status >= S_KEYED then Some(s.pair[parity].sek) else None
  }

  lemma SamePair<T>(a: seq<T>, b: seq<T>, i: nat)
    requires |a| == 2 && |b| == 2 && i < 2 && a[i] == b[i] && a[1 - i] == b[1 - i]
    ensures a == b
  {
    assert i == 0 || i == 1;
  }

  lemma AcceptableParts(pv: Provider, msg: Bytes)
    requires Acceptable(pv, msg)
    ensures |msg| > OFS_SALT && SaltLen(msg) <= SALT_SZ && KeyLength(SekLen(msg))
    ensures |msg| == OFS_SALT + SaltLen(msg) + (if HasBoth(msg) then 2 * SekLen(msg) else SekLen(msg)) + WRAP_SIGN_SZ
  {
  }
}
