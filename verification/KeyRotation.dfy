/**
  Even/odd key rotation of the HaiCrypt sender (section 6.1.6 of draft-sharabayko-srt-01).

  A session has two contexts. One is active; its packet counter decides when the other one gets
  a new key and is announced, when the session switches over to it, and when the old one is
  decommissioned. One sender step is key management, injection of the Keying Material messages
  that are due, and the encryption of one packet.
 */
module KeyRotation {
  import opened Packets
  import opened KeyWrap
  import opened KeyMaterial

  /** What a session is configured with; counters are 32 bits wide. */
  datatype Cfg = Cfg(pv: Provider, mode: Byte, keyLen: nat, refresh: nat, pre: nat)

  ghost predicate CfgOk(cfg: Cfg) {
    && Sound(cfg.pv) && KeyLength(cfg.keyLen) && Mode(cfg.pv, cfg.mode)
    && 1 <= cfg.pre && 2 * cfg.pre < cfg.refresh < UINT_RANGE
  }

  datatype TxCtx = TxCtx(status: nat, announce: bool, ttsend: bool, salt: Bytes, sek: Bytes, km: Bytes, pktCnt: nat)

  /** Both contexts, which one is current, and the key-encrypting key. */
  datatype Tx = Tx(pair: seq<TxCtx>, cur: nat, kek: Bytes)

  predicate Shape(cfg: Cfg, s: Tx) {
    && KeyLength(cfg.keyLen) && |s.pair| == 2 && s.cur < 2
    && |s.pair[s.cur].salt| == SALT_SZ && |s.pair[s.cur].sek| == cfg.keyLen
  }

  function Cur(s: Tx): TxCtx
    requires |s.pair| == 2 && s.cur < 2
  {
    s.pair[s.cur]
  }

  function Alt(s: Tx): TxCtx
    requires |s.pair| == 2 && s.cur < 2
  {
    s.pair[1 - s.cur]
  }

  /** The pair with the current and the other context replaced. */
  function With(s: Tx, cur: TxCtx, alt: TxCtx): (t: Tx)
    requires |s.pair| == 2 && s.cur < 2
    ensures |t.pair| == 2 && t.cur == s.cur && t.kek == s.kek && Cur(t) == cur && Alt(t) == alt
  {
    s.(pair := s.pair[s.cur := cur][1 - s.cur := alt])
  }

  // ---------------------------------------------------------------- the transitions

  /** The other context gets a new key; its message carries the new and the current key. */
  function Refresh(cfg: Cfg, s: Tx, newSek: Bytes): Tx
    requires Shape(cfg, s) && |newSek| == cfg.keyLen
  {
    var km := KmMessage(cfg.pv.kw(s.kek), 1 - s.cur, cfg.mode, Cur(s).salt, newSek, Some(Cur(s).sek));
    With(s, Cur(s), Alt(s).(salt := Cur(s).salt, sek := newSek, km := km, pktCnt := 0, status := S_KEYED))
  }

  function PreSwitch(s: Tx): Tx
    requires |s.pair| == 2 && s.cur < 2
  {
    With(s, if HasBoth(Alt(s).km) then Cur(s).(announce := false) else Cur(s), Alt(s).(announce := true, ttsend := true))
  }

  function Switch(s: Tx): Tx
    requires |s.pair| == 2 && s.cur < 2
  {
    With(s, Cur(s).(status := S_DEPRECATED), Alt(s).(status := S_ACTIVE, announce := true)).(cur := 1 - s.cur)
  }

  function PostSwitch(cfg: Cfg, s: Tx): Tx
    requires Shape(cfg, s)
  {
    With(s,
      if HasBoth(Cur(s).km) then Cur(s).(km := KmMessage(cfg.pv.kw(s.kek), s.cur, cfg.mode, Cur(s).salt, Cur(s).sek, None))
      else Cur(s),
      Alt(s).(announce := false, status := S_SARDY))
  }

  function Rotate(cfg: Cfg, s: Tx, newSek: Bytes): (t: Tx)
    requires Shape(cfg, s) && |newSek| == cfg.keyLen
    ensures |t.pair| == 2 && t.cur < 2
  {
    if Cur(s).pktCnt > cfg.refresh || Cur(s).pktCnt == 0 then Switch(s)
    else if Cur(s).pktCnt > cfg.refresh - cfg.pre && !Alt(s).announce then PreSwitch(Refresh(cfg, s, newSek))
    else if Alt(s).status == S_DEPRECATED && Cur(s).pktCnt > cfg.pre then PostSwitch(cfg, s)
    else s
  }

  /** The announcement timer: what is announced becomes due. */
  function Due(c: TxCtx, timer: bool): TxCtx {
    if timer && c.announce then c.(ttsend := true) else c
  }

  function ManageKm(cfg: Cfg, s: Tx, newSek: Bytes, timer: bool): (t: Tx)
    requires Shape(cfg, s) && |newSek| == cfg.keyLen
    ensures |t.pair| == 2 && t.cur < 2
  {
    var t := Rotate(cfg, s, newSek);
    t.(pair := [Due(t.pair[0], timer), Due(t.pair[1], timer)])
  }

  function Injected(s: Tx): seq<Bytes>
    requires |s.pair| == 2
  {
    (if s.pair[0].ttsend then [s.pair[0].km] else []) + (if s.pair[1].ttsend then [s.pair[1].km] else [])
  }

  function AfterInject(s: Tx): (t: Tx)
    requires |s.pair| == 2
    ensures |t.pair| == 2
  {
    s.(pair := [s.pair[0].(ttsend := false), s.pair[1].(ttsend := false)])
  }

  /** The packet counter is an unsigned int. */
  function Bump(n: nat): nat {
    (n + 1) % UINT_RANGE
  }

  function AfterData(s: Tx): Tx
    requires |s.pair| == 2 && s.cur < 2
  {
    s.(pair := s.pair[s.cur := Cur(s).(pktCnt := Bump(Cur(s).pktCnt))])
  }

  // ---------------------------------------------------------------- the invariant

  /** The counter of the active context before a step; zero means it rolled over. */
  function Age(c: TxCtx): nat {
    if c.pktCnt == 0 then UINT_RANGE else c.pktCnt
  }

  function Km(cfg: Cfg, s: Tx, i: nat, alt: Option<Bytes>): Bytes
    requires |s.pair| == 2 && i < 2 && KeyLength(cfg.keyLen)
    requires |s.pair[i].salt| == SALT_SZ && |s.pair[i].sek| == cfg.keyLen && (alt.Some? ==> |alt.value| == cfg.keyLen)
  {
    KmMessage(cfg.pv.kw(s.kek), i, cfg.mode, s.pair[i].salt, s.pair[i].sek, alt)
  }

  /** The other context is decommissioned or was never used: the current one is announced alone. */
  predicate Quiet(cfg: Cfg, s: Tx)
    requires Shape(cfg, s)
  {
    && Alt(s).status == S_SARDY && !Alt(s).announce && Cur(s).announce
    && Cur(s).km == Km(cfg, s, s.cur, None)
    && Age(Cur(s)) <= cfg.refresh - cfg.pre + 1
  }

  /** The other context has its new key and is announced, with both keys. */
  predicate Next(cfg: Cfg, s: Tx)
    requires Shape(cfg, s)
  {
    && Alt(s).status == S_KEYED && Alt(s).announce && !Cur(s).announce
    && Alt(s).pktCnt == 0 && Alt(s).salt == Cur(s).salt && |Alt(s).sek| == cfg.keyLen
    && Alt(s).km == Km(cfg, s, 1 - s.cur, Some(Cur(s).sek))
    && Age(Cur(s)) > cfg.refresh - cfg.pre + 1
  }

  /** Just switched: the old key is still in the announced message, for late packets. */
  predicate Late(cfg: Cfg, s: Tx)
    requires Shape(cfg, s)
  {
    && Alt(s).status == S_DEPRECATED && !Alt(s).announce && Cur(s).announce
    && |Alt(s).sek| == cfg.keyLen
    && Cur(s).km == Km(cfg, s, s.cur, Some(Alt(s).sek))
    && Age(Cur(s)) <= cfg.pre + 1
  }

  /** What holds before every step. */
  ghost predicate TxInv(cfg: Cfg, s: Tx) {
    && CfgOk(cfg) && Shape(cfg, s)
    && Cur(s).status == S_ACTIVE
    && Cur(s).pktCnt < UINT_RANGE && 1 <= Age(Cur(s)) <= cfg.refresh + 1
    && (Quiet(cfg, s) || Next(cfg, s) || Late(cfg, s))
    && !Alt(s).ttsend && (Cur(s).ttsend ==> Quiet(cfg, s) && Age(Cur(s)) == 1)
  }

  /** The first context keyed and active, its message due. */
  function TxInitial(cfg: Cfg, salt: Bytes, sek: Bytes, kek: Bytes): Tx
    requires |salt| == SALT_SZ && |sek| == cfg.keyLen && KeyLength(cfg.keyLen)
  {
    var km := KmMessage(cfg.pv.kw(kek), 0, cfg.mode, salt, sek, None);
    Tx([TxCtx(S_ACTIVE, true, true, salt, sek, km, 1), TxCtx(S_SARDY, false, false, [], [], [], 0)], 0, kek)
  }

  lemma InitialInv(cfg: Cfg, salt: Bytes, sek: Bytes, kek: Bytes)
    requires CfgOk(cfg) && |salt| == SALT_SZ && |sek| == cfg.keyLen
    ensures TxInv(cfg, TxInitial(cfg, salt, sek, kek))
  {
    hide Sound, KmMessage;
  }

  predicate Paired(s: Tx) {
    |s.pair| == 2 && s.cur < 2
  }

  /** The other context has its new key: it is announced, and next in turn. */
  predicate NextUp(s: Tx) {
    Paired(s) && Alt(s).status == S_KEYED
  }

  /** The one message that is announced. */
  function Announced(s: Tx): Bytes {
    if !Paired(s) then [] else if Cur(s).announce then Cur(s).km else Alt(s).km
  }

  // ---------------------------------------------------------------- one step

  function StepTx(cfg: Cfg, s: Tx, newSek: Bytes, timer: bool): (t: Tx)
    requires Shape(cfg, s) && |newSek| == cfg.keyLen
    ensures |t.pair| == 2 && t.cur < 2
  {
    AfterData(AfterInject(ManageKm(cfg, s, newSek, timer)))
  }

  function StepMsgs(cfg: Cfg, s: Tx, newSek: Bytes, timer: bool): seq<Bytes>
    requires Shape(cfg, s) && |newSek| == cfg.keyLen
  {
    Injected(ManageKm(cfg, s, newSek, timer))
  }

  predicate Switches(cfg: Cfg, s: Tx)
    requires |s.pair| == 2 && s.cur < 2
  {
    Age(Cur(s)) == cfg.refresh + 1
  }

  predicate Refreshes(cfg: Cfg, s: Tx)
    requires |s.pair| == 2 && s.cur < 2
  {
    Age(Cur(s)) == cfg.refresh - cfg.pre + 1
  }

  /** Injecting and counting the packet change flags and the counter only. */
  lemma StepFields(cfg: Cfg, s: Tx, newSek: Bytes, timer: bool)
    requires Shape(cfg, s) && |newSek| == cfg.keyLen
    ensures var r, t := Rotate(cfg, s, newSek), StepTx(cfg, s, newSek, timer);
      && t.cur == r.cur && t.kek == r.kek && |r.pair| == 2
      && Cur(t) == Cur(r).(ttsend := false, pktCnt := Bump(Cur(r).pktCnt))
      && Alt(t) == Alt(r).(ttsend := false)
  {
    hide Sound, KmMessage, HasBoth;
  }

  /** What is injected: the messages of the contexts whose time has come. */
  lemma StepInjects(cfg: Cfg, s: Tx, newSek: Bytes, timer: bool)
    requires Shape(cfg, s) && |newSek| == cfg.keyLen
    ensures var r, ms := Rotate(cfg, s, newSek), StepMsgs(cfg, s, newSek, timer);
      && |r.pair| == 2
      && (Cur(r).announce && !Alt(r).announce && !Alt(r).ttsend ==>
            ms == if timer || Cur(r).ttsend then [Cur(r).km] else [])
      && (Alt(r).announce && !Cur(r).announce && !Cur(r).ttsend ==>
            ms == if timer || Alt(r).ttsend then [Alt(r).km] else [])
  {
    hide Sound, KmMessage, HasBoth;
  }

  lemma KmBoth(cfg: Cfg, s: Tx, i: nat, alt: Option<Bytes>)
    requires CfgOk(cfg) && |s.pair| == 2 && i < 2
    requires |s.pair[i].salt| == SALT_SZ && |s.pair[i].sek| == cfg.keyLen && (alt.Some? ==> |alt.value| == cfg.keyLen)
    ensures HasBoth(Km(cfg, s, i, alt)) <==> alt.Some?
  {
    hide Sound, KmMessage, Acceptable;
    KmAcceptable(cfg.pv, s.kek, i, cfg.mode, s.pair[i].salt, s.pair[i].sek, alt);
  }

  /** A switch lands on a freshly refreshed context; the old one is kept for late packets. Only the timer makes it announce. */
  lemma SwitchStep(cfg: Cfg, s: Tx, newSek: Bytes, timer: bool)
    requires TxInv(cfg, s) && |newSek| == cfg.keyLen && Switches(cfg, s)
    ensures Next(cfg, s) && Alt(s).status == S_KEYED && Alt(s).pktCnt == 0
    ensures var t, ms := StepTx(cfg, s, newSek, timer), StepMsgs(cfg, s, newSek, timer);
      && TxInv(cfg, t) && Late(cfg, t) && t.kek == s.kek
      && t.cur == 1 - s.cur && Cur(t).sek == Alt(s).sek && Alt(t).sek == Cur(s).sek && Cur(t).salt == Cur(s).salt
      && Age(Cur(t)) == 1
      && ms == if timer then [Announced(t)] else []
  {
    hide Sound, KmMessage, HasBoth;
    StepFields(cfg, s, newSek, timer);
    StepInjects(cfg, s, newSek, timer);
  }

  lemma RefreshRotates(cfg: Cfg, s: Tx, newSek: Bytes)
    requires TxInv(cfg, s) && |newSek| == cfg.keyLen && Refreshes(cfg, s)
    ensures Quiet(cfg, s)
    ensures var r := Rotate(cfg, s, newSek);
      && r.cur == s.cur && r.kek == s.kek
      && Cur(r) == Cur(s).(announce := false)
      && Alt(r) == TxCtx(S_KEYED, true, true, Cur(s).salt, newSek,
           KmMessage(cfg.pv.kw(s.kek), 1 - s.cur, cfg.mode, Cur(s).salt, newSek, Some(Cur(s).sek)), 0)
  {
    hide Sound, KmMessage, HasBoth;
    var f := Refresh(cfg, s, newSek);
    KmBoth(cfg, f, 1 - f.cur, Some(Cur(f).sek));
  }

  /** A refresh keys and announces the other context, at once and with both keys. */
  lemma RefreshStep(cfg: Cfg, s: Tx, newSek: Bytes, timer: bool)
    requires TxInv(cfg, s) && |newSek| == cfg.keyLen && Refreshes(cfg, s)
    ensures Quiet(cfg, s)
    ensures var t, ms := StepTx(cfg, s, newSek, timer), StepMsgs(cfg, s, newSek, timer);
      && TxInv(cfg, t) && Next(cfg, t) && t.kek == s.kek
      && t.cur == s.cur && Cur(t).sek == Cur(s).sek && Alt(t).sek == newSek && Cur(t).salt == Cur(s).salt
      && Age(Cur(t)) == Age(Cur(s)) + 1
      && ms == [Announced(t)]
  {
    hide Sound, KmMessage, Rotate, StepTx, StepMsgs;
    RefreshRotates(cfg, s, newSek);
    StepFields(cfg, s, newSek, timer);
    StepInjects(cfg, s, newSek, timer);
  }

  lemma PostRotates(cfg: Cfg, s: Tx, newSek: Bytes)
    requires TxInv(cfg, s) && |newSek| == cfg.keyLen && Late(cfg, s) && Age(Cur(s)) == cfg.pre + 1
    ensures var r := Rotate(cfg, s, newSek);
      && r.cur == s.cur && r.kek == s.kek
      && Cur(r) == Cur(s).(km := Km(cfg, s, s.cur, None)) && Alt(r) == Alt(s).(status := S_SARDY)
  {
    hide Sound, KmMessage, HasBoth;
    KmBoth(cfg, s, s.cur, Some(Alt(s).sek));
  }

  /** The old context is decommissioned: the message of the current one is rebuilt with its key alone. */
  lemma PostStep(cfg: Cfg, s: Tx, newSek: Bytes, timer: bool)
    requires TxInv(cfg, s) && |newSek| == cfg.keyLen && Late(cfg, s) && Age(Cur(s)) == cfg.pre + 1
    ensures var t, ms := StepTx(cfg, s, newSek, timer), StepMsgs(cfg, s, newSek, timer);
      && TxInv(cfg, t) && t.kek == s.kek
      && t.cur == s.cur && Cur(t).sek == Cur(s).sek && Alt(t).sek == Alt(s).sek && Cur(t).salt == Cur(s).salt
      && Age(Cur(t)) == Age(Cur(s)) + 1
      && Quiet(cfg, t)
      && ms == if timer then [Announced(t)] else []
  {
    hide Sound, KmMessage, Rotate, StepTx, StepMsgs;
    PostRotates(cfg, s, newSek);
    StepFields(cfg, s, newSek, timer);
    StepInjects(cfg, s, newSek, timer);
  }

  lemma NothingDue(cfg: Cfg, s: Tx, newSek: Bytes)
    requires TxInv(cfg, s) && |newSek| == cfg.keyLen && !Switches(cfg, s) && !Refreshes(cfg, s)
    requires !(Late(cfg, s) && Age(Cur(s)) == cfg.pre + 1)
    ensures Rotate(cfg, s, newSek) == s
  {
    hide Km;
  }

  /** Only the counter moves. */
  lemma IdleStep(cfg: Cfg, s: Tx, newSek: Bytes, timer: bool)
    requires TxInv(cfg, s) && |newSek| == cfg.keyLen && !Switches(cfg, s) && !Refreshes(cfg, s)
    requires !(Late(cfg, s) && Age(Cur(s)) == cfg.pre + 1)
    ensures var t, ms := StepTx(cfg, s, newSek, timer), StepMsgs(cfg, s, newSek, timer);
      && TxInv(cfg, t) && t.kek == s.kek
      && t.cur == s.cur && Cur(t).sek == Cur(s).sek && Alt(t).sek == Alt(s).sek && Cur(t).salt == Cur(s).salt
      && Age(Cur(t)) == Age(Cur(s)) + 1
      && (Quiet(cfg, t) <==> Quiet(cfg, s)) && (Next(cfg, t) <==> Next(cfg, s)) && (Late(cfg, t) <==> Late(cfg, s))
      && ms == if timer || Cur(s).ttsend then [Announced(t)] else []
  {
    hide Sound, KmMessage, Rotate, StepTx, StepMsgs;
    NothingDue(cfg, s, newSek);
    StepFields(cfg, s, newSek, timer);
    StepInjects(cfg, s, newSek, timer);
  }

  /** Any step that neither switches nor refreshes keeps both keys and the current context, and announces when the timer or the first packet asks for it. */
  lemma PlainStep(cfg: Cfg, s: Tx, newSek: Bytes, timer: bool)
    requires TxInv(cfg, s) && |newSek| == cfg.keyLen && !Switches(cfg, s) && !Refreshes(cfg, s)
    ensures var t, ms := StepTx(cfg, s, newSek, timer), StepMsgs(cfg, s, newSek, timer);
      && TxInv(cfg, t) && t.kek == s.kek
      && t.cur == s.cur && Cur(t).sek == Cur(s).sek && Alt(t).sek == Alt(s).sek && Cur(t).salt == Cur(s).salt
      && Age(Cur(t)) == Age(Cur(s)) + 1
      && (Next(cfg, t) <==> Next(cfg, s)) && (Late(cfg, t) ==> Late(cfg, s))
      && ms == if timer || Cur(s).ttsend then [Announced(t)] else []
  {
    hide Sound, KmMessage, HasBoth, StepTx, StepMsgs, Km, Announced;
    if Late(cfg, s) && Age(Cur(s)) == cfg.pre + 1 {
      PostStep(cfg, s, newSek, timer);
    } else {
      IdleStep(cfg, s, newSek, timer);
    }
  }

  /** Every step keeps the invariant. */
  lemma StepKeepsInv(cfg: Cfg, s: Tx, newSek: Bytes, timer: bool)
    requires TxInv(cfg, s) && |newSek| == cfg.keyLen
    ensures TxInv(cfg, StepTx(cfg, s, newSek, timer))
  {
    hide StepTx, Quiet, Next, Late;
    if Switches(cfg, s) {
      SwitchStep(cfg, s, newSek, timer);
    } else if Refreshes(cfg, s) {
      RefreshStep(cfg, s, newSek, timer);
    } else {
      PlainStep(cfg, s, newSek, timer);
    }
  }

  /**
    What a reader of the state machine wants to know: exactly one context is active and it is the
    current one, exactly one is announced, the key in use is in the announced message, and the
    counter fits its 32 bits.
   */
  lemma Safe(cfg: Cfg, s: Tx)
    requires TxInv(cfg, s)
    ensures Cur(s).status == S_ACTIVE && Alt(s).status != S_ACTIVE && Cur(s).announce != Alt(s).announce
    ensures Cur(s).pktCnt <= 0xFFFF_FFFF
    ensures var c := if Cur(s).announce then Cur(s) else Alt(s);
      && exists i: nat, own, other: Option<Bytes> ::
           && i < 2 && |own| == cfg.keyLen && (other.Some? ==> |other.value| == cfg.keyLen)
           && c.km == KmMessage(cfg.pv.kw(s.kek), i, cfg.mode, Cur(s).salt, own, other)
           && Cur(s).sek == (if i == s.cur then own else if other.Some? then other.value else [])
  {
    hide Sound, KmMessage;
    var i := if Next(cfg, s) then 1 - s.cur else s.cur;
    var other := if Next(cfg, s) then Some(Cur(s).sek) else if Late(cfg, s) then Some(Alt(s).sek) else None;
    assert s.pair[i].km == KmMessage(cfg.pv.kw(s.kek), i, cfg.mode, Cur(s).salt, s.pair[i].sek, other);
  }

  // ---------------------------------------------------------------- the sending session

  class TxSession {
    const cfg: Cfg
    var pair: seq<TxCtx>
    var cur: nat
    var kek: Bytes

    ghost function View(): Tx reads this {
      Tx(pair, cur, kek)
    }

    ghost predicate Valid() reads this {
      TxInv(cfg, View())
    }

    /** The encoder branch of HaiCrypt_Create with its Rekey; salt and first key come from the random generator. */
    constructor (cfg: Cfg, pwd: Bytes, secret: Bytes, salt: Bytes, sek: Bytes)
      requires CfgOk(cfg) && |salt| == SALT_SZ && |sek| == cfg.keyLen
      ensures Valid() && this.cfg == cfg
      ensures View() == TxInitial(cfg, salt, sek, if pwd != [] then DeriveKek(cfg.pv, pwd, salt, |sek|) else secret)
    {
      hide Sound, KmMessage;
      this.cfg, cur := cfg, 0;
      var k := if pwd != [] then DeriveKek(cfg.pv, pwd, salt, |sek|) else secret;
      kek := k;
      var km := AsmKM(cfg.pv, k, 0, cfg.mode, salt, sek, None);
      var keyed := TxCtx(S_KEYED, false, false, salt, sek, km, 1);
      pair := [keyed.(announce := true, ttsend := true, status := S_ACTIVE), TxCtx(S_SARDY, false, false, [], [], [], 0)];
      InitialInv(cfg, salt, sek, k);
    }

    method DoRefresh(newSek: Bytes)
      requires Sound(cfg.pv) && Shape(cfg, View()) && |newSek| == cfg.keyLen && pair[cur].status == S_ACTIVE && pair[1 - cur].status >= S_SARDY
      modifies this`pair
      ensures View() == Refresh(cfg, old(View()), newSek)
    {
      hide Sound, KmMessage;
      var new_ := pair[1 - cur].(salt := pair[cur].salt, sek := newSek);
      var km := AsmKM(cfg.pv, kek, 1 - cur, cfg.mode, new_.salt, newSek, Some(pair[cur].sek));
      pair := pair[1 - cur := new_.(km := km, pktCnt := 0, status := S_KEYED)];
      SamePair(pair, Refresh(cfg, old(View()), newSek).pair, cur);
    }

    method DoPreSwitch()
      requires |pair| == 2 && cur < 2 && pair[cur].status == S_ACTIVE && pair[1 - cur].status == S_KEYED
      modifies this`pair
      ensures View() == PreSwitch(old(View()))
    {
      hide HasBoth;
      pair := pair[1 - cur := pair[1 - cur].(announce := true)];
      pair := pair[1 - cur := pair[1 - cur].(ttsend := true)];
      if HasBoth(pair[1 - cur].km) {
        pair := pair[cur := pair[cur].(announce := false)];
      }
      SamePair(pair, PreSwitch(old(View())).pair, cur);
    }

    method DoSwitch()
      requires |pair| == 2 && cur < 2 && pair[1 - cur].status >= S_KEYED
      modifies this`pair, this`cur
      ensures View() == Switch(old(View()))
    {
      pair := pair[cur := pair[cur].(status := S_DEPRECATED)];
      pair := pair[1 - cur := pair[1 - cur].(status := S_ACTIVE)];
      pair := pair[1 - cur := pair[1 - cur].(announce := true)];
      SamePair(pair, Switch(old(View())).pair, cur);
      cur := 1 - cur;
    }

    method DoPostSwitch()
      requires Sound(cfg.pv) && Shape(cfg, View())
      modifies this`pair
      ensures View() == PostSwitch(cfg, old(View()))
    {
      hide Sound, KmMessage, HasBoth;
      pair := pair[1 - cur := pair[1 - cur].(announce := false, status := S_SARDY)];
      if HasBoth(pair[cur].km) {
        var km := AsmKM(cfg.pv, kek, cur, cfg.mode, pair[cur].salt, pair[cur].sek, None);
        pair := pair[cur := pair[cur].(km := km)];
      }
      SamePair(pair, PostSwitch(cfg, old(View())).pair, cur);
    }

    /** The transitions of hcryptCtx_Tx_ManageKM; every state assertion of the code holds. */
    method DoRotate(newSek: Bytes)
      requires Valid() && |newSek| == cfg.keyLen
      modifies this`pair, this`cur
      ensures View() == Rotate(cfg, old(View()), newSek)
    {
      hide Sound, KmMessage, HasBoth;
      var cnt := pair[cur].pktCnt;
      if cnt > cfg.refresh || cnt == 0 {
        assert pair[1 - cur].status >= S_KEYED;
        DoSwitch();
      } else if cnt > cfg.refresh - cfg.pre && !pair[1 - cur].announce {
        assert pair[cur].status == S_ACTIVE && pair[1 - cur].status >= S_SARDY;
        DoRefresh(newSek);
        DoPreSwitch();
      } else if pair[1 - cur].status == S_DEPRECATED && cnt > cfg.pre {
        DoPostSwitch();
      }
    }

    method MarkDue(i: nat)
      requires |pair| == 2 && i < 2
      modifies this`pair
      ensures pair == old(pair)[i := Due(old(pair)[i], true)]
    {
      if pair[i].announce {
        pair := pair[i := pair[i].(ttsend := true)];
      }
    }

    method DoManageKM(newSek: Bytes, timer: bool)
      requires Valid() && |newSek| == cfg.keyLen
      modifies this`pair, this`cur
      ensures View() == ManageKm(cfg, old(View()), newSek, timer)
    {
      hide Rotate, Quiet, Next, Late;
      DoRotate(newSek);
      ghost var r := Rotate(cfg, old(View()), newSek);
      if timer {
        MarkDue(0);
        MarkDue(1);
      }
      assert pair == [Due(r.pair[0], timer), Due(r.pair[1], timer)];
    }

    /** hcryptCtx_Tx_InjectKM: a loop over both contexts. */
    method InjectKM() returns (msgs: seq<Bytes>)
      requires |pair| == 2
      modifies this`pair
      ensures View() == AfterInject(old(View())) && msgs == Injected(old(View()))
    {
      msgs := [];
      var i := 0;
      ghost var p := pair;
      while i < 2
        invariant 0 <= i <= 2 && |pair| == 2
        invariant forall k :: 0 <= k < 2 ==> pair[k] == if k < i then p[k].(ttsend := false) else p[k]
        invariant msgs == (if i > 0 && p[0].ttsend then [p[0].km] else []) + (if i > 1 && p[1].ttsend then [p[1].km] else [])
      {
        if pair[i].ttsend {
          msgs := msgs + [pair[i].km];
          pair := pair[i := pair[i].(ttsend := false)];
        }
        i := i + 1;
      }
      assert pair == AfterInject(old(View())).pair;
    }

    /** HaiCrypt_Tx_ManageKeys, which leaves the current context active. */
    method ManageKeys(newSek: Bytes, timer: bool) returns (msgs: seq<Bytes>)
      requires Valid() && |newSek| == cfg.keyLen
      modifies this`pair, this`cur
      ensures View() == AfterInject(ManageKm(cfg, old(View()), newSek, timer)) && msgs == StepMsgs(cfg, old(View()), newSek, timer)
      ensures |pair| == 2 && cur < 2 && pair[cur].status == S_ACTIVE
    {
      hide ManageKm, Quiet, Next, Late, Injected;
      DoManageKM(newSek, timer);
      ghost var t := StepTx(cfg, old(View()), newSek, timer);
      StepKeepsInv(cfg, old(View()), newSek, timer);
      msgs := InjectKM();
      assert Cur(t).status == S_ACTIVE by { InvActive(cfg, t); }
    }

    /** HaiCrypt_Tx_Data: the packet goes out under the current key and is counted. */
    method Data() returns (parity: nat, sek: Bytes)
      requires |pair| == 2 && cur < 2
      modifies this`pair
      ensures View() == AfterData(old(View())) && parity == old(cur) && sek == old(pair)[old(cur)].sek
    {
      parity, sek := cur, pair[cur].sek;
      pair := pair[cur := pair[cur].(pktCnt := Bump(pair[cur].pktCnt))];
    }

    /** One sender step. */
    method Step(newSek: Bytes, timer: bool) returns (msgs: seq<Bytes>, parity: nat, sek: Bytes)
      requires Valid() && |newSek| == cfg.keyLen
      modifies this`pair, this`cur
      ensures Valid() && View() == StepTx(cfg, old(View()), newSek, timer)
      ensures msgs == StepMsgs(cfg, old(View()), newSek, timer) && parity == cur && sek == pair[cur].sek
    {
      hide ManageKm, Quiet, Next, Late, StepMsgs;
      StepKeepsInv(cfg, View(), newSek, timer);
      msgs := ManageKeys(newSek, timer);
      parity, sek := Data();
    }
  }

  lemma InvActive(cfg: Cfg, s: Tx)
    requires TxInv(cfg, s)
    ensures |s.pair| == 2 && s.cur < 2 && Cur(s).status == S_ACTIVE
  {
  }
}
