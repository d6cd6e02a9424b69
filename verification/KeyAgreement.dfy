/**
  Two parties: the sender rotates keys, every Keying Material message is delivered when it is
  emitted, data packets arrive in any order, late, twice or never.

  The keys a session generates are numbered from 0. Key `g` encrypts the packets from `First(g)`
  up to `First(g + 1)`, and the receiver can decrypt them from then on until the message that
  announces key `g + 2` replaces the key of that parity.
 */
module KeyAgreement {
  import opened Packets
  import opened KeyMaterial
  import opened KeyRotation

  /** The number of the first packet encrypted with key `g`. */
  function First(cfg: Cfg, g: nat): nat {
    if g == 0 then 0 else if g == 1 then cfg.refresh else First(cfg, g - 1) + cfg.refresh + 1
  }

  lemma FirstNext(cfg: Cfg, g: nat)
    ensures First(cfg, g + 1) - First(cfg, g) == if g == 0 then cfg.refresh else cfg.refresh + 1
  {
  }

  lemma {:induction false} FirstMonotone(cfg: Cfg, g: nat, h: nat)
    requires g <= h
    ensures First(cfg, g) <= First(cfg, h)
    decreases h
  {
    if g < h {
      FirstMonotone(cfg, g, h - 1);
    }
  }

  // ---------------------------------------------------------------- the receiver's slots

  predicate Known(rx: Rx, j: nat, sek: Bytes)
    requires |rx.pair| == 2 && j < 2
  {
    rx.pair[j].status == S_KEYED && rx.pair[j].sek == sek
  }

  /**
    The receiver shares the sender's mode and secret, and the message it has cached in the even
    context is the one its keys came from. (Every message is compared with that cache first,
    because the field the context is chosen by is zero in Keying Material.)
   */
  predicate RxReady(cfg: Cfg, pwd: Bytes, rx: Rx, salt: Bytes, kek: Bytes) {
    && KeyLength(cfg.keyLen) && |salt| == SALT_SZ
    && RxOk(rx) && rx.pair[0].mode == rx.pair[1].mode == cfg.mode
    && KekReady(cfg.pv, pwd, rx, salt, cfg.keyLen, kek)
    && (rx.pair[0].status >= S_KEYED ==> CacheTrue(cfg, rx, salt, kek))
  }

  predicate CacheTrue(cfg: Cfg, rx: Rx, salt: Bytes, kek: Bytes)
    requires KeyLength(cfg.keyLen) && |salt| == SALT_SZ && |rx.pair| == 2
  {
    && rx.pair[0].status == S_KEYED && |rx.pair[0].sek| == cfg.keyLen
    && (|| rx.pair[0].km == KmMessage(cfg.pv.kw(kek), 0, cfg.mode, salt, rx.pair[0].sek, None)
        || (&& rx.pair[1].status == S_KEYED && |rx.pair[1].sek| == cfg.keyLen
            && rx.pair[0].km == KmMessage(cfg.pv.kw(kek), 0, cfg.mode, salt, rx.pair[0].sek, Some(rx.pair[1].sek))))
  }

  function Deliver(cfg: Cfg, pwd: Bytes, rx: Rx, m: Bytes): Rx
    requires RxOk(rx)
  {
    if |m| >= OFS_SALT && Classify(m) == PT_KM then ProcessKm(cfg.pv, pwd, rx, m).0 else rx
  }

  /** The even context may announce first or second: a message with both keys is the same. */
  lemma SameBoth(c: Wrapper, mode: Byte, salt: Bytes, even: Bytes, odd: Bytes)
    requires |salt| == SALT_SZ && KeyLength(|even|) && |odd| == |even|
    ensures KmMessage(c, 0, mode, salt, even, Some(odd)) == KmMessage(c, 1, mode, salt, odd, Some(even))
  {
    hide KmHeader;
  }

  lemma SeksApart(a: Bytes, b: Bytes, c: Bytes, d: Bytes)
    requires a + b == c + d && |a| == |c|
    ensures a == c && b == d
  {
    assert (a + b)[..|a|] == a && (c + d)[..|a|] == c && (a + b)[|a|..] == b && (c + d)[|a|..] == d;
  }

  /** What one message does to the slots, whether it is parsed or recognised as already known. */
  predicate Delivered(rx: Rx, rx': Rx, i: nat, sek: Bytes, alt: Option<Bytes>)
    requires |rx.pair| == 2 && i < 2
  {
    && |rx'.pair| == 2 && rx'.cur == rx.cur
    && Known(rx', i, sek)
    && (alt.Some? ==> Known(rx', 1 - i, alt.value))
    && (alt.None? ==> rx'.pair[1 - i] == rx.pair[1 - i])
  }

  lemma ParseDelivers(cfg: Cfg, pwd: Bytes, rx: Rx, salt: Bytes, kek: Bytes, i: nat, sek: Bytes, alt: Option<Bytes>)
    requires Sound(cfg.pv) && Mode(cfg.pv, cfg.mode) && RxReady(cfg, pwd, rx, salt, kek) && i < 2
    requires |sek| == cfg.keyLen && (alt.Some? ==> |alt.value| == cfg.keyLen)
    requires alt.None? && i == 1 && rx.pair[0].status >= S_KEYED ==> Known(rx, 1, sek)
    ensures var m := KmMessage(cfg.pv.kw(kek), i, cfg.mode, salt, sek, alt);
      var rx' := ParseKm(cfg.pv, pwd, rx, m).0;
      Delivered(rx, rx', i, sek, alt) && RxReady(cfg, pwd, rx', salt, kek)
  {
    hide KmMessage, ParseKm, Sound, KekReady, NewKek;
    KmRoundTrip(cfg.pv, pwd, rx, kek, i, cfg.mode, salt, sek, alt);
    if alt.Some? && i == 1 {
      SameBoth(cfg.pv.kw(kek), cfg.mode, salt, alt.value, sek);
    }
  }

  lemma SkipDelivers(cfg: Cfg, pwd: Bytes, rx: Rx, salt: Bytes, kek: Bytes, i: nat, sek: Bytes, alt: Option<Bytes>)
    requires Sound(cfg.pv) && Mode(cfg.pv, cfg.mode) && RxReady(cfg, pwd, rx, salt, kek) && i < 2
    requires |sek| == cfg.keyLen && (alt.Some? ==> |alt.value| == cfg.keyLen)
    requires rx.pair[0].status >= S_KEYED
    requires rx.pair[0].km == KmMessage(cfg.pv.kw(kek), i, cfg.mode, salt, sek, alt)
    ensures Delivered(rx, rx, i, sek, alt)
  {
    hide KmMessage, Sound, KekReady;
    var c, e, o := cfg.pv.kw(kek), rx.pair[0].sek, rx.pair[1].sek;
    if rx.pair[0].km == KmMessage(c, 0, cfg.mode, salt, e, None) {
      KmInjective(cfg.pv, kek, cfg.mode, salt, 0, e, None, i, sek, alt);
    } else {
      KmInjective(cfg.pv, kek, cfg.mode, salt, 0, e, Some(o), i, sek, alt);
      if i == 0 {
        SeksApart(e, o, sek, alt.value);
      } else {
        SeksApart(e, o, alt.value, sek);
      }
    }
  }

  lemma MessageDelivers(cfg: Cfg, pwd: Bytes, rx: Rx, salt: Bytes, kek: Bytes, i: nat, sek: Bytes, alt: Option<Bytes>)
    requires Sound(cfg.pv) && Mode(cfg.pv, cfg.mode) && RxReady(cfg, pwd, rx, salt, kek) && i < 2
    requires |sek| == cfg.keyLen && (alt.Some? ==> |alt.value| == cfg.keyLen)
    requires alt.None? && i == 1 && rx.pair[0].status >= S_KEYED ==> Known(rx, 1, sek)
    ensures var rx' := Deliver(cfg, pwd, rx, KmMessage(cfg.pv.kw(kek), i, cfg.mode, salt, sek, alt));
      Delivered(rx, rx', i, sek, alt) && RxReady(cfg, pwd, rx', salt, kek)
  {
    hide KmMessage, ParseKm, Sound, KekReady, CacheTrue, Classify, CacheIndex, Acceptable, HasBoth, KeyIndex, SaltLen, SekLen, Delivered;
    var m := KmMessage(cfg.pv.kw(kek), i, cfg.mode, salt, sek, alt);
    KmAcceptable(cfg.pv, kek, i, cfg.mode, salt, sek, alt);
    if rx.pair[0].status >= S_KEYED && rx.pair[0].km == m {
      SkipDelivers(cfg, pwd, rx, salt, kek, i, sek, alt);
    } else {
      ParseDelivers(cfg, pwd, rx, salt, kek, i, sek, alt);
    }
  }

  // ---------------------------------------------------------------- the two parties

  /** A packet on its way: its parity, the key it was encrypted with and that key's number. */
  datatype Sent = Sent(parity: nat, sek: Bytes, key: nat)

  /** Sender, receiver, the packets sent so far, the keys generated so far, and the number of the current one. */
  datatype Sys = Sys(tx: Tx, rx: Rx, log: seq<Sent>, keys: seq<Bytes>, gen: nat)

  datatype Event =
    | Send(newSek: Bytes, timer: bool)
    | Arrive(n: nat)

  predicate SysLegal(cfg: Cfg, s: Sys, e: Event) {
    match e
    case Send(newSek, _) => |newSek| == cfg.keyLen
    case Arrive(n) => n < |s.log|
  }

  function DeliverAll(cfg: Cfg, pwd: Bytes, rx: Rx, ms: seq<Bytes>): Rx
    requires RxOk(rx) && |ms| <= 1
  {
    if ms == [] then rx else Deliver(cfg, pwd, rx, ms[0])
  }

  ghost function SysStep(cfg: Cfg, pwd: Bytes, s: Sys, e: Event): Sys
    requires TxInv(cfg, s.tx) && RxOk(s.rx) && SysLegal(cfg, s, e)
  {
    match e
    case Arrive(n) => s.(rx := s.rx.(cur := Some(if s.log[n].parity == 0 then 0 else 1)))
    case Send(newSek, timer) =>
      var t, ms := StepTx(cfg, s.tx, newSek, timer), StepMsgs(cfg, s.tx, newSek, timer);
      var gen := if Switches(cfg, s.tx) then s.gen + 1 else s.gen;
      Sys(t, if |ms| <= 1 then DeliverAll(cfg, pwd, s.rx, ms) else s.rx,
          s.log + [Sent(t.cur, t.pair[t.cur].sek, gen)],
          if Refreshes(cfg, s.tx) then s.keys + [newSek] else s.keys, gen)
  }

  /** The sender's side: which key is in which context, and how many packets were sent. */
  predicate Timed(cfg: Cfg, s: Sys) {
    && Paired(s.tx) && s.tx.cur == s.gen % 2
    && |s.log| == First(cfg, s.gen) + Age(Cur(s.tx)) - (if s.gen == 0 then 1 else 0)
    && |s.keys| == s.gen + (if NextUp(s.tx) then 2 else 1)
    && Cur(s.tx).sek == s.keys[s.gen]
    && (NextUp(s.tx) ==> Alt(s.tx).sek == s.keys[s.gen + 1])
    && (!NextUp(s.tx) && s.gen > 0 ==> Alt(s.tx).sek == s.keys[s.gen - 1])
    && (Alt(s.tx).status == S_DEPRECATED ==> s.gen > 0)
    && (Cur(s.tx).ttsend <==> s.log == [])
  }

  /** Packet `n` was encrypted with the key whose turn it was. */
  predicate LogOk(cfg: Cfg, log: seq<Sent>, keys: seq<Bytes>, gen: nat) {
    forall n :: 0 <= n < |log| ==>
      && log[n].key <= gen && log[n].key < |keys|
      && log[n].parity == log[n].key % 2 && log[n].sek == keys[log[n].key]
      && First(cfg, log[n].key) <= n < First(cfg, log[n].key + 1)
  }

  /** The receiver's side, once the first packet is out: the current key, and the next or the previous one. */
  predicate Slots(rx: Rx, tx: Tx, keys: seq<Bytes>, gen: nat) {
    && RxOk(rx) && tx.cur < 2 && gen < |keys| && Known(rx, tx.cur, keys[gen])
    && (NextUp(tx) ==> gen + 1 < |keys| && Known(rx, 1 - tx.cur, keys[gen + 1]))
    && (!NextUp(tx) && gen > 0 ==> Known(rx, 1 - tx.cur, keys[gen - 1]))
  }

  ghost predicate SysInv(cfg: Cfg, pwd: Bytes, s: Sys) {
    && Sound(cfg.pv) && TxInv(cfg, s.tx) && Timed(cfg, s) && LogOk(cfg, s.log, s.keys, s.gen)
    && RxReady(cfg, pwd, s.rx, Cur(s.tx).salt, s.tx.kek)
    && (s.log != [] ==> Slots(s.rx, s.tx, s.keys, s.gen))
    && (s.log == [] ==> s.rx.pair[0].status < S_KEYED)
  }

  // ---------------------------------------------------------------- every event keeps the invariant

  lemma LogGrows(cfg: Cfg, log: seq<Sent>, keys: seq<Bytes>, gen: nat, keys': seq<Bytes>, gen': nat, p: Sent)
    requires LogOk(cfg, log, keys, gen) && gen <= gen' && keys <= keys'
    requires p.key == gen' < |keys'| && p.parity == gen' % 2 && p.sek == keys'[gen']
    requires First(cfg, gen') <= |log| < First(cfg, gen' + 1)
    ensures LogOk(cfg, log + [p], keys', gen')
  {
    hide First;
  }

  lemma SwitchTimed(cfg: Cfg, pwd: Bytes, s: Sys, e: Event)
    requires SysInv(cfg, pwd, s) && e.Send? && SysLegal(cfg, s, e) && Switches(cfg, s.tx)
    ensures var t := SysStep(cfg, pwd, s, e);
      TxInv(cfg, t.tx) && Timed(cfg, t) && LogOk(cfg, t.log, t.keys, t.gen)
  {
    hide LogOk, KekReady, CacheTrue, Slots, StepTx, StepMsgs, DeliverAll, KmMessage, First, Sound;
    SwitchStep(cfg, s.tx, e.newSek, e.timer);
    FirstNext(cfg, s.gen);
    FirstNext(cfg, s.gen + 1);
    var t := SysStep(cfg, pwd, s, e);
    LogGrows(cfg, s.log, s.keys, s.gen, t.keys, t.gen, t.log[|s.log|]);
  }

  lemma OtherTimed(cfg: Cfg, pwd: Bytes, s: Sys, e: Event)
    requires SysInv(cfg, pwd, s) && e.Send? && SysLegal(cfg, s, e) && !Switches(cfg, s.tx)
    ensures var t := SysStep(cfg, pwd, s, e);
      TxInv(cfg, t.tx) && Timed(cfg, t) && LogOk(cfg, t.log, t.keys, t.gen)
  {
    hide LogOk, KekReady, CacheTrue, Slots, StepTx, StepMsgs, DeliverAll, KmMessage, First, Sound;
    FirstNext(cfg, s.gen);
    var t := SysStep(cfg, pwd, s, e);
    if Refreshes(cfg, s.tx) {
      RefreshStep(cfg, s.tx, e.newSek, e.timer);
    } else {
      PlainStep(cfg, s.tx, e.newSek, e.timer);
    }
    LogGrows(cfg, s.log, s.keys, s.gen, t.keys, t.gen, t.log[|s.log|]);
  }

  lemma AnnounceNext(cfg: Cfg, pwd: Bytes, t: Sys, rx: Rx)
    requires Sound(cfg.pv) && Timed(cfg, t) && TxInv(cfg, t.tx) && RxReady(cfg, pwd, rx, Cur(t.tx).salt, t.tx.kek)
    requires Next(cfg, t.tx)
    ensures var rx' := Deliver(cfg, pwd, rx, Announced(t.tx));
      RxReady(cfg, pwd, rx', Cur(t.tx).salt, t.tx.kek) && Slots(rx', t.tx, t.keys, t.gen)
  {
    hide KmMessage, Deliver, Sound, KekReady, CacheTrue, First;
    var tx := t.tx;
    MessageDelivers(cfg, pwd, rx, Cur(tx).salt, tx.kek, 1 - tx.cur, Alt(tx).sek, Some(Cur(tx).sek));
  }

  lemma AnnounceLate(cfg: Cfg, pwd: Bytes, t: Sys, rx: Rx)
    requires Sound(cfg.pv) && Timed(cfg, t) && TxInv(cfg, t.tx) && RxReady(cfg, pwd, rx, Cur(t.tx).salt, t.tx.kek)
    requires Late(cfg, t.tx)
    ensures var rx' := Deliver(cfg, pwd, rx, Announced(t.tx));
      RxReady(cfg, pwd, rx', Cur(t.tx).salt, t.tx.kek) && Slots(rx', t.tx, t.keys, t.gen)
  {
    hide KmMessage, Deliver, Sound, KekReady, CacheTrue, First;
    var tx := t.tx;
    MessageDelivers(cfg, pwd, rx, Cur(tx).salt, tx.kek, tx.cur, Cur(tx).sek, Some(Alt(tx).sek));
  }

  lemma AnnounceQuiet(cfg: Cfg, pwd: Bytes, t: Sys, rx: Rx)
    requires Sound(cfg.pv) && Timed(cfg, t) && TxInv(cfg, t.tx) && RxReady(cfg, pwd, rx, Cur(t.tx).salt, t.tx.kek)
    requires RxOk(rx) && Quiet(cfg, t.tx) && (rx.pair[0].status >= S_KEYED ==> Known(rx, t.tx.cur, t.keys[t.gen]))
    requires t.gen > 0 ==> Known(rx, 1 - t.tx.cur, t.keys[t.gen - 1])
    ensures var rx' := Deliver(cfg, pwd, rx, Announced(t.tx));
      RxReady(cfg, pwd, rx', Cur(t.tx).salt, t.tx.kek) && Slots(rx', t.tx, t.keys, t.gen)
  {
    hide KmMessage, Deliver, Sound, KekReady, CacheTrue, First;
    var tx := t.tx;
    MessageDelivers(cfg, pwd, rx, Cur(tx).salt, tx.kek, tx.cur, Cur(tx).sek, None);
  }

  /** The announced message brings the receiver's slots up to date; a lone key adds nothing to the other slot. */
  lemma AnnounceDelivers(cfg: Cfg, pwd: Bytes, t: Sys, rx: Rx)
    requires Sound(cfg.pv) && Timed(cfg, t) && TxInv(cfg, t.tx) && RxReady(cfg, pwd, rx, Cur(t.tx).salt, t.tx.kek)
    requires Quiet(cfg, t.tx) ==> (rx.pair[0].status >= S_KEYED ==> Known(rx, t.tx.cur, t.keys[t.gen]))
    requires Quiet(cfg, t.tx) && t.gen > 0 ==> Known(rx, 1 - t.tx.cur, t.keys[t.gen - 1])
    ensures var rx' := Deliver(cfg, pwd, rx, Announced(t.tx));
      RxReady(cfg, pwd, rx', Cur(t.tx).salt, t.tx.kek) && Slots(rx', t.tx, t.keys, t.gen)
  {
    hide KmMessage, Deliver, Sound, KekReady, CacheTrue, Known, Announced, First, Slots, Quiet, Next, Late;
    if Next(cfg, t.tx) {
      AnnounceNext(cfg, pwd, t, rx);
    } else if Late(cfg, t.tx) {
      AnnounceLate(cfg, pwd, t, rx);
    } else {
      AnnounceQuiet(cfg, pwd, t, rx);
    }
  }

  lemma SwitchSlots(cfg: Cfg, pwd: Bytes, s: Sys, e: Event)
    requires SysInv(cfg, pwd, s) && e.Send? && SysLegal(cfg, s, e) && s.log != [] && Switches(cfg, s.tx)
    ensures var t := SysStep(cfg, pwd, s, e);
      TxInv(cfg, t.tx) && Timed(cfg, t) && Slots(s.rx, t.tx, t.keys, t.gen)
  {
    hide LogOk, KekReady, CacheTrue, StepTx, StepMsgs, DeliverAll, KmMessage, First, Sound, Known, Announced;
    SwitchStep(cfg, s.tx, e.newSek, e.timer);
    SwitchTimed(cfg, pwd, s, e);
  }

  lemma PlainSlots(cfg: Cfg, pwd: Bytes, s: Sys, e: Event)
    requires SysInv(cfg, pwd, s) && e.Send? && SysLegal(cfg, s, e) && s.log != []
    requires !Switches(cfg, s.tx) && !Refreshes(cfg, s.tx)
    ensures var t := SysStep(cfg, pwd, s, e);
      TxInv(cfg, t.tx) && Timed(cfg, t) && Slots(s.rx, t.tx, t.keys, t.gen)
  {
    hide LogOk, KekReady, CacheTrue, StepTx, StepMsgs, DeliverAll, First, Sound, Known, Announced, Quiet, Next, Late;
    PlainStep(cfg, s.tx, e.newSek, e.timer);
    OtherTimed(cfg, pwd, s, e);
  }

  /** What the sender's step alone does to the pairing of slots and keys: all but a refresh keep it. */
  lemma SlotsCarryOver(cfg: Cfg, pwd: Bytes, s: Sys, e: Event)
    requires SysInv(cfg, pwd, s) && e.Send? && SysLegal(cfg, s, e) && s.log != [] && !Refreshes(cfg, s.tx)
    ensures var t := SysStep(cfg, pwd, s, e);
      TxInv(cfg, t.tx) && Timed(cfg, t) && Slots(s.rx, t.tx, t.keys, t.gen)
  {
    hide SysStep, LogOk, RxReady, Slots, First, Sound, Timed, Quiet, Next, Late;
    if Switches(cfg, s.tx) {
      SwitchSlots(cfg, pwd, s, e);
    } else {
      PlainSlots(cfg, pwd, s, e);
    }
  }

  /** What is emitted is at most the announced message; it is, on the first step and on a refresh. */
  lemma Emitted(cfg: Cfg, pwd: Bytes, s: Sys, e: Event)
    requires SysInv(cfg, pwd, s) && e.Send? && SysLegal(cfg, s, e)
    ensures var t, ms := SysStep(cfg, pwd, s, e), StepMsgs(cfg, s.tx, e.newSek, e.timer);
      && TxInv(cfg, t.tx) && Timed(cfg, t) && LogOk(cfg, t.log, t.keys, t.gen)
      && (ms == [] || ms == [Announced(t.tx)])
      && (s.log == [] || Refreshes(cfg, s.tx) ==> ms != [])
      && Cur(t.tx).salt == Cur(s.tx).salt && t.tx.kek == s.tx.kek
      && (Refreshes(cfg, s.tx) ==> Next(cfg, t.tx))
      && (s.log == [] ==> t.gen == 0)
  {
    hide LogOk, KekReady, CacheTrue, StepTx, StepMsgs, DeliverAll, KmMessage, First, Sound, Slots;
    if Switches(cfg, s.tx) {
      SwitchStep(cfg, s.tx, e.newSek, e.timer);
      SwitchTimed(cfg, pwd, s, e);
    } else {
      if Refreshes(cfg, s.tx) {
        RefreshStep(cfg, s.tx, e.newSek, e.timer);
      } else {
        PlainStep(cfg, s.tx, e.newSek, e.timer);
      }
      OtherTimed(cfg, pwd, s, e);
    }
  }

  lemma SendKeeps(cfg: Cfg, pwd: Bytes, s: Sys, e: Event)
    requires SysInv(cfg, pwd, s) && e.Send? && SysLegal(cfg, s, e)
    ensures SysInv(cfg, pwd, SysStep(cfg, pwd, s, e))
  {
    hide LogOk, KekReady, CacheTrue, StepTx, StepMsgs, Deliver, KmMessage, First, Sound, Timed, Announced;
    var t := SysStep(cfg, pwd, s, e);
    Emitted(cfg, pwd, s, e);
    if s.log != [] && !Refreshes(cfg, s.tx) {
      SlotsCarryOver(cfg, pwd, s, e);
    }
    if StepMsgs(cfg, s.tx, e.newSek, e.timer) != [] {
      AnnounceDelivers(cfg, pwd, t, s.rx);
    }
  }

  lemma ArriveKeeps(cfg: Cfg, pwd: Bytes, s: Sys, e: Event)
    requires SysInv(cfg, pwd, s) && e.Arrive? && SysLegal(cfg, s, e)
    ensures SysInv(cfg, pwd, SysStep(cfg, pwd, s, e))
  {
    hide LogOk, KmMessage, First, Sound;
  }

  // ---------------------------------------------------------------- runs

  function SysInitial(cfg: Cfg, pwd: Bytes, secret: Bytes, salt: Bytes, sek: Bytes): Sys
    requires |salt| == SALT_SZ && |sek| == cfg.keyLen && KeyLength(cfg.keyLen)
  {
    var kek := if pwd != [] then DeriveKek(cfg.pv, pwd, salt, |sek|) else secret;
    Sys(TxInitial(cfg, salt, sek, kek), RxInitial(cfg.mode, if pwd != [] then [] else secret), [], [sek], 0)
  }

  lemma StartsOk(cfg: Cfg, pwd: Bytes, secret: Bytes, salt: Bytes, sek: Bytes)
    requires CfgOk(cfg) && |salt| == SALT_SZ && |sek| == cfg.keyLen
    ensures SysInv(cfg, pwd, SysInitial(cfg, pwd, secret, salt, sek))
  {
    hide KmMessage, Sound;
    InitialInv(cfg, salt, sek, if pwd != [] then DeriveKek(cfg.pv, pwd, salt, |sek|) else secret);
  }

  /** The states a run goes through. */
  ghost predicate Reach(cfg: Cfg, pwd: Bytes, s: Sys, es: seq<Event>, t: Sys)
    decreases |es|
  {
    if es == [] then s == t
    else
      && TxInv(cfg, s.tx) && RxOk(s.rx) && SysLegal(cfg, s, es[0])
      && Reach(cfg, pwd, SysStep(cfg, pwd, s, es[0]), es[1..], t)
  }

  /** Runs never get stuck: after any run, every event a party may issue next is a longer run. */
  lemma {:induction false} RunExtends(cfg: Cfg, pwd: Bytes, s: Sys, es: seq<Event>, t: Sys, e: Event)
    requires Reach(cfg, pwd, s, es, t) && TxInv(cfg, t.tx) && RxOk(t.rx) && SysLegal(cfg, t, e)
    ensures Reach(cfg, pwd, s, es + [e], SysStep(cfg, pwd, t, e))
    decreases |es|
  {
    hide SysStep, TxInv, RxOk, SysLegal;
    if es == [] {
      assert (es + [e])[1..] == [];
    } else {
      RunExtends(cfg, pwd, SysStep(cfg, pwd, s, es[0]), es[1..], t, e);
      assert (es + [e])[1..] == es[1..] + [e];
    }
  }

  lemma {:induction false} RunKeeps(cfg: Cfg, pwd: Bytes, s: Sys, es: seq<Event>, t: Sys)
    requires SysInv(cfg, pwd, s) && Reach(cfg, pwd, s, es, t)
    ensures SysInv(cfg, pwd, t)
    decreases |es|
  {
    hide SysInv, SysStep;
    if es != [] {
      if es[0].Send? {
        SendKeeps(cfg, pwd, s, es[0]);
      } else {
        ArriveKeeps(cfg, pwd, s, es[0]);
      }
      RunKeeps(cfg, pwd, SysStep(cfg, pwd, s, es[0]), es[1..], t);
    }
  }

  // ---------------------------------------------------------------- what the runs guarantee

  /**
    Every packet of every run: packet `n` is encrypted with the key whose turn it is by its number
    alone, and travels with the parity of that key.
   */
  lemma PacketKey(cfg: Cfg, pwd: Bytes, secret: Bytes, salt: Bytes, sek: Bytes, es: seq<Event>, t: Sys, n: nat)
    requires CfgOk(cfg) && |salt| == SALT_SZ && |sek| == cfg.keyLen
    requires Reach(cfg, pwd, SysInitial(cfg, pwd, secret, salt, sek), es, t) && n < |t.log|
    ensures var p := t.log[n];
      && First(cfg, p.key) <= n < First(cfg, p.key + 1)
      && p.parity == p.key % 2 && p.key < |t.keys| && p.sek == t.keys[p.key]
  {
    hide SysInitial, Reach, First, RxReady, Slots, Timed, TxInv, Sound;
    StartsOk(cfg, pwd, secret, salt, sek);
    RunKeeps(cfg, pwd, SysInitial(cfg, pwd, secret, salt, sek), es, t);
  }

  /** The packets sent so far under key `g`. */
  ghost function SentUnder(log: seq<Sent>, g: nat): set<nat> {
    set n: nat | n < |log| && log[n].key == g
  }

  lemma {:induction false} IntervalSize(a: nat, b: nat, s: set<nat>)
    requires a <= b && forall n: nat :: n in s <==> a <= n < b
    ensures |s| == b - a
    decreases b - a
  {
    if a == b {
      assert s == {};
    } else {
      var n: nat := b - 1;
      assert n in s;
      IntervalSize(a, b - 1, s - {n});
    }
  }

  /** Consecutive periods do not overlap: a packet number lies in one only. */
  lemma OnePeriod(cfg: Cfg, g: nat, h: nat, n: nat)
    requires First(cfg, g) <= n < First(cfg, g + 1) && First(cfg, h) <= n < First(cfg, h + 1)
    ensures g == h
  {
    if g < h {
      FirstMonotone(cfg, g + 1, h);
    } else if h < g {
      FirstMonotone(cfg, h + 1, g);
    }
  }

  /**
    How many packets a key encrypts, over every run: at most `refresh + 1`; and once its
    successor is in use exactly `refresh` for the first key and `refresh + 1` for every other.
   */
  lemma PacketsPerKey(cfg: Cfg, pwd: Bytes, secret: Bytes, salt: Bytes, sek: Bytes, es: seq<Event>, t: Sys, g: nat)
    requires CfgOk(cfg) && |salt| == SALT_SZ && |sek| == cfg.keyLen
    requires Reach(cfg, pwd, SysInitial(cfg, pwd, secret, salt, sek), es, t) && g <= t.gen
    ensures |SentUnder(t.log, g)| <= if g == 0 then cfg.refresh else cfg.refresh + 1
    ensures g < t.gen ==> |SentUnder(t.log, g)| == if g == 0 then cfg.refresh else cfg.refresh + 1
  {
    hide SysInitial, Reach, First, RxReady, Slots, Quiet, Next, Late, Sound;
    StartsOk(cfg, pwd, secret, salt, sek);
    RunKeeps(cfg, pwd, SysInitial(cfg, pwd, secret, salt, sek), es, t);
    FirstNext(cfg, g);
    FirstMonotone(cfg, g, t.gen);
    var a, b := First(cfg, g), if g < t.gen then First(cfg, g + 1) else |t.log|;
    if g < t.gen {
      FirstMonotone(cfg, g + 1, t.gen);
    }
    UnderIs(cfg, t, g, a, b);
    IntervalSize(a, b, SentUnder(t.log, g));
  }

  lemma UnderIs(cfg: Cfg, t: Sys, g: nat, a: nat, b: nat)
    requires LogOk(cfg, t.log, t.keys, t.gen) && a == First(cfg, g) <= b <= |t.log| && b <= First(cfg, g + 1)
    requires b == First(cfg, g + 1) || b == |t.log|
    ensures forall n: nat :: n in SentUnder(t.log, g) <==> a <= n < b
  {
    hide First;
    forall n: nat | a <= n < b
      ensures t.log[n].key == g
    {
      OnePeriod(cfg, t.log[n].key, g, n);
    }
  }

  /**
    A key is generated, and its message with both keys emitted, exactly `pre` packets before the
    first packet it encrypts.
   */
  lemma AnnouncedAhead(cfg: Cfg, pwd: Bytes, secret: Bytes, salt: Bytes, sek: Bytes, es: seq<Event>, s: Sys, e: Event)
    requires CfgOk(cfg) && |salt| == SALT_SZ && |sek| == cfg.keyLen
    requires Reach(cfg, pwd, SysInitial(cfg, pwd, secret, salt, sek), es, s) && e.Send? && |e.newSek| == cfg.keyLen
    ensures TxInv(cfg, s.tx) && RxOk(s.rx)
    ensures var t, ms := SysStep(cfg, pwd, s, e), StepMsgs(cfg, s.tx, e.newSek, e.timer);
      && (t.keys != s.keys <==> |s.log| == First(cfg, s.gen + 1) - cfg.pre)
      && (t.keys != s.keys ==>
            && |s.keys| == s.gen + 1 && t.keys == s.keys + [e.newSek]
            && |s.keys[s.gen]| == cfg.keyLen && |Cur(s.tx).salt| == SALT_SZ
            && ms == [KmMessage(cfg.pv.kw(s.tx.kek), (s.gen + 1) % 2, cfg.mode, Cur(s.tx).salt, e.newSek, Some(s.keys[s.gen]))])
  {
    hide SysInitial, Reach, First, KmMessage, KekReady, CacheTrue, Slots, LogOk, StepTx, StepMsgs, DeliverAll, Sound;
    StartsOk(cfg, pwd, secret, salt, sek);
    RunKeeps(cfg, pwd, SysInitial(cfg, pwd, secret, salt, sek), es, s);
    FirstNext(cfg, s.gen);
    if Refreshes(cfg, s.tx) {
      RefreshStep(cfg, s.tx, e.newSek, e.timer);
    }
  }

  /** The message that announces the key after the one of packet `n` and its successor has not been emitted yet. */
  predicate InTime(cfg: Cfg, s: Sys, n: nat)
    requires n < |s.log|
  {
    |s.log| <= First(cfg, s.log[n].key + 2) - cfg.pre
  }

  /** The receiver's slot of a packet's parity holds the packet's own key, or one two generations on. */
  lemma SlotOf(cfg: Cfg, pwd: Bytes, s: Sys, n: nat)
    requires SysInv(cfg, pwd, s) && n < |s.log|
    ensures RxOk(s.rx) && s.log[n].parity < 2
    ensures s.log[n].key == s.gen || (s.log[n].key + 1 == s.gen && !NextUp(s.tx)) ==>
      KeyFor(s.rx, s.log[n].parity) == Some(s.log[n].sek)
    ensures var g := if s.log[n].parity == s.tx.cur then s.gen else if NextUp(s.tx) then s.gen + 1 else s.gen - 1;
      0 <= g < |s.keys| && KeyFor(s.rx, s.log[n].parity) == Some(s.keys[g]) && (g - s.log[n].key) % 2 == 0
  {
    hide First, RxReady, TxInv, Sound, Timed, Slots;
    LoggedKey(cfg, s, n);
    SysParts(cfg, pwd, s);
    SlotKeys(s.rx, s.tx, s.keys, s.gen, s.log[n].key, s.log[n].parity);
  }

  lemma LoggedKey(cfg: Cfg, s: Sys, n: nat)
    requires LogOk(cfg, s.log, s.keys, s.gen) && n < |s.log|
    ensures var p := s.log[n]; p.key <= s.gen && p.key < |s.keys| && p.parity == p.key % 2 && p.sek == s.keys[p.key]
  {
    hide First;
  }

  lemma SysParts(cfg: Cfg, pwd: Bytes, s: Sys)
    requires SysInv(cfg, pwd, s) && s.log != []
    ensures RxOk(s.rx) && Paired(s.tx) && s.tx.cur == s.gen % 2 && Slots(s.rx, s.tx, s.keys, s.gen)
    ensures |s.keys| == s.gen + if NextUp(s.tx) then 2 else 1
  {
    hide First, LogOk, TxInv, Sound, KekReady, CacheTrue, Slots;
  }

  /** Which key the slot of a parity holds, for a packet of an earlier or the current key. */
  lemma SlotKeys(rx: Rx, tx: Tx, keys: seq<Bytes>, gen: nat, key: nat, parity: nat)
    requires RxOk(rx) && Slots(rx, tx, keys, gen) && tx.cur == gen % 2 && key <= gen && parity == key % 2
    ensures key == gen || (key + 1 == gen && !NextUp(tx)) ==> KeyFor(rx, parity) == Some(keys[key])
    ensures var g := if parity == tx.cur then gen else if NextUp(tx) then gen + 1 else gen - 1;
      0 <= g < |keys| && KeyFor(rx, parity) == Some(keys[g]) && (g - key) % 2 == 0
  {
    if parity != tx.cur {
      assert key < gen;
    }
  }

  /** When the announcement of the key after next is due, in packets sent. */
  lemma TimeOf(cfg: Cfg, pwd: Bytes, s: Sys, n: nat)
    requires SysInv(cfg, pwd, s) && n < |s.log|
    ensures InTime(cfg, s, n) <==> s.log[n].key == s.gen || (s.log[n].key + 1 == s.gen && !NextUp(s.tx))
  {
    hide First, KekReady, CacheTrue, KmMessage, Slots, Km, RxReady;
    var g := s.log[n].key;
    assert g <= s.gen;
    FirstNext(cfg, s.gen);
    FirstNext(cfg, s.gen + 1);
    if g + 2 <= s.gen {
      FirstMonotone(cfg, g + 2, s.gen);
    }
  }

  /**
    Key agreement, exactly: over every run, an arriving packet is decrypted with the key it was
    encrypted with if and only if the message announcing the key after next has not been emitted
    yet. (All keys distinct is needed for "only if".)
   */
  lemma AgreementIff(cfg: Cfg, pwd: Bytes, secret: Bytes, salt: Bytes, sek: Bytes, es: seq<Event>, s: Sys, n: nat)
    requires CfgOk(cfg) && |salt| == SALT_SZ && |sek| == cfg.keyLen
    requires Reach(cfg, pwd, SysInitial(cfg, pwd, secret, salt, sek), es, s) && n < |s.log|
    ensures RxOk(s.rx) && s.log[n].parity < 2
    ensures InTime(cfg, s, n) ==> KeyFor(s.rx, s.log[n].parity) == Some(s.log[n].sek)
    ensures (forall i, j :: 0 <= i < j < |s.keys| ==> s.keys[i] != s.keys[j]) ==>
      (KeyFor(s.rx, s.log[n].parity) == Some(s.log[n].sek) ==> InTime(cfg, s, n))
  {
    hide SysInitial, Reach, First, KekReady, CacheTrue, KmMessage, Slots, RxReady, InTime, Timed, TxInv;
    StartsOk(cfg, pwd, secret, salt, sek);
    RunKeeps(cfg, pwd, SysInitial(cfg, pwd, secret, salt, sek), es, s);
    SlotOf(cfg, pwd, s, n);
    TimeOf(cfg, pwd, s, n);
    var p := s.log[n];
    assert p.key <= s.gen && p.sek == s.keys[p.key];
  }

  /** So a packet overtaken by up to `refresh - pre + 1` later packets finds its key. */
  lemma Agreement(cfg: Cfg, pwd: Bytes, secret: Bytes, salt: Bytes, sek: Bytes, es: seq<Event>, s: Sys, n: nat)
    requires CfgOk(cfg) && |salt| == SALT_SZ && |sek| == cfg.keyLen
    requires Reach(cfg, pwd, SysInitial(cfg, pwd, secret, salt, sek), es, s) && n < |s.log|
    requires |s.log| - 1 - n <= cfg.refresh - cfg.pre + 1
    ensures RxOk(s.rx) && s.log[n].parity < 2 && KeyFor(s.rx, s.log[n].parity) == Some(s.log[n].sek)
  {
    hide SysInitial, Reach, First, Sound;
    AgreementIff(cfg, pwd, secret, salt, sek, es, s, n);
    PacketKey(cfg, pwd, secret, salt, sek, es, s, n);
    FirstNext(cfg, s.log[n].key + 1);
  }

  /** One packet more is too many for the last packet of a key: the bound is tight. */
  lemma BoundIsTight(cfg: Cfg, pwd: Bytes, secret: Bytes, salt: Bytes, sek: Bytes, es: seq<Event>, s: Sys, n: nat)
    requires CfgOk(cfg) && |salt| == SALT_SZ && |sek| == cfg.keyLen
    requires Reach(cfg, pwd, SysInitial(cfg, pwd, secret, salt, sek), es, s) && n < |s.log|
    requires forall i, j :: 0 <= i < j < |s.keys| ==> s.keys[i] != s.keys[j]
    requires n + 1 == First(cfg, s.log[n].key + 1) && |s.log| - 1 - n == cfg.refresh - cfg.pre + 2
    ensures RxOk(s.rx) && s.log[n].parity < 2 && KeyFor(s.rx, s.log[n].parity) != Some(s.log[n].sek)
  {
    hide SysInitial, Reach, First, Sound;
    AgreementIff(cfg, pwd, secret, salt, sek, es, s, n);
    FirstNext(cfg, s.log[n].key + 1);
  }
}
