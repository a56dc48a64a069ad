/** The firmware's store of configuration variables and its answer to a request
    from the kernel. */
module Config {
  import opened Common

  const REQ_NOP: nat := 0
  const REQ_N_VARS: nat := 1
  const REQ_WR: nat := 2
  const REQ_RD: nat := 3
  const REQ_RD_MIN: nat := 4
  const REQ_RD_MAX: nat := 5
  const REQ_NAME: nat := 6
  const REQ_DESC: nat := 7

  const RES_OK: nat := 128
  const RES_N_VARS: nat := 129
  const RES_ID_ERR: nat := 130
  const RES_RD_VAL: nat := 131
  const RES_RD_MIN: nat := 132
  const RES_RD_MAX: nat := 133
  const RES_NAME: nat := 134
  const RES_DESC: nat := 135
  const RES_REQ_ERR: nat := 255

  const MSG_DATA_SIZE := 400
  const MSG_SIZE := 20 + MSG_DATA_SIZE
  const CFG_BUF_LEN := 496

  /** The room the reply code leaves for text. */
  const TEXT_MAX := CFG_BUF_LEN - MSG_SIZE

  datatype Msg = Msg(seqNr: nat, typ: nat, ind: int, val: int, len: nat, data: string)

  /** `Copy(Some(c))` is `cfgCpyCB` registered with the address of cell `c`. */
  datatype Callback = NoCallback | Copy(data: Option<nat>)

  datatype Var = Var(
    id: int, name: string, desc: string, val: Int32, min: Int32, max: Int32, rdCb: Callback, wrCb: Callback)

  /** `cells` is the application memory that callbacks copy from and to; `rep` is
      the reply buffer, which keeps what earlier replies left in it. */
  datatype Store = Store(vars: seq<Var>, cells: seq<int>, rep: Msg)

  function Clamp(v: int, lo: int, hi: int): (r: int)
    ensures r == lo || lo <= r <= hi
  {
    var a := if v > hi then hi else v;
    if a < lo then lo else a
  }

  ghost predicate CallbackTyped(cb: Callback, cells: nat) {
    cb.Copy? && cb.data.Some? ==> cb.data.value < cells
  }

  ghost predicate Typed(st: Store) {
    && |st.rep.data| == MSG_DATA_SIZE
    && forall i :: 0 <= i < |st.vars| ==>
         CallbackTyped(st.vars[i].rdCb, |st.cells|) && CallbackTyped(st.vars[i].wrCb, |st.cells|)
  }

  ghost predicate UniqueIds(st: Store) {
    forall i, j :: 0 <= i < j < |st.vars| ==> st.vars[i].id != st.vars[j].id
  }

  ghost predicate InRange(st: Store) {
    forall i :: 0 <= i < |st.vars| ==> st.vars[i].min <= st.vars[i].val <= st.vars[i].max
  }

  function FirstWithId(vars: seq<Var>, id: int): (i: nat)
    ensures i <= |vars| && (i < |vars| ==> vars[i].id == id) && forall j :: 0 <= j < i ==> vars[j].id != id
  {
    if vars == [] || vars[0].id == id then 0 else 1 + FirstWithId(vars[1..], id)
  }

  /** `cfgSetInd` on a valid index. */
  function Set(st: Store, i: nat, val: int, trigger: bool): Store
    requires Typed(st) && i < |st.vars|
  {
    var v := st.vars[i].(val := Clamp(val, st.vars[i].min, st.vars[i].max));
    var st1 := st.(vars := st.vars[i := v]);
    if trigger && v.wrCb.Copy? && v.wrCb.data.Some? then st1.(cells := st.cells[v.wrCb.data.value := v.val]) else st1
  }

  function SetById(st: Store, id: int, val: int, trigger: bool): Store
    requires Typed(st)
  {
    var i := FirstWithId(st.vars, id);
    if i < |st.vars| then Set(st, i, val, trigger) else st
  }

  /** The read callback of variable `i`, which goes through the variable's id. */
  function Refresh(st: Store, i: nat): Store
    requires Typed(st) && i < |st.vars|
  {
    var v := st.vars[i];
    if v.rdCb.Copy? && v.rdCb.data.Some? then SetById(st, v.id, st.cells[v.rdCb.data.value], false) else st
  }

  function TextReply(rep: Msg, typ: nat, text: string, val: int): Msg
    requires |rep.data| == MSG_DATA_SIZE
  {
    var n := if |text| > TEXT_MAX then TEXT_MAX else |text|;
    rep.(typ := typ, len := n, data := text[..n] + rep.data[n..], val := val)
  }

  /** The store and the reply after one request. */
  function Handle(st: Store, req: Msg): Store
    requires Typed(st)
  {
    var rep := st.rep.(seqNr := req.seqNr, ind := req.ind, len := 0);
    if req.typ == REQ_NOP then st.(rep := rep.(typ := RES_OK, val := 0))
    else if req.typ == REQ_N_VARS then st.(rep := rep.(typ := RES_N_VARS, val := |st.vars|))
    else if req.ind < 0 || req.ind >= |st.vars| then st.(rep := rep.(typ := RES_ID_ERR))
    else
      var v := st.vars[req.ind];
      if req.typ == REQ_WR then Set(st, req.ind, req.val, true).(rep := rep.(typ := RES_OK))
      else if req.typ == REQ_RD then
        var st1 := Refresh(st, req.ind);
        st1.(rep := rep.(typ := RES_RD_VAL, val := st1.vars[req.ind].val))
      else if req.typ == REQ_RD_MIN then st.(rep := rep.(typ := RES_RD_MIN, val := v.min))
      else if req.typ == REQ_RD_MAX then st.(rep := rep.(typ := RES_RD_MAX, val := v.max))
      else if req.typ == REQ_NAME then st.(rep := TextReply(rep, RES_NAME, v.name, v.val))
      else if req.typ == REQ_DESC then st.(rep := TextReply(rep, RES_DESC, v.desc, v.val))
      else st.(rep := rep.(typ := RES_REQ_ERR))
  }

  // ---------- What a single operation does ----------

  /** The clamped value is within the limits for every input exactly when the
      limits are in order. */
  lemma ClampInRange(lo: int, hi: int)
    ensures lo <= hi <==> forall v :: lo <= Clamp(v, lo, hi) <= hi
    ensures forall v :: lo <= v <= hi ==> Clamp(v, lo, hi) == v
  {
    assert Clamp(hi, lo, hi) >= lo;
  }

  /** With limits in order, no value within them is nearer than the clamped one. */
  lemma ClampNearest(v: int, lo: int, hi: int, x: int)
    requires lo <= x <= hi
    ensures lo <= Clamp(v, lo, hi) <= hi && Abs(Clamp(v, lo, hi) - v) <= Abs(x - v)
    ensures (v > hi ==> Clamp(v, lo, hi) == hi) && (v < lo ==> Clamp(v, lo, hi) == lo)
  {}

  ghost predicate Kept(a: Var, b: Var) {
    b == a.(val := b.val)
  }

  lemma SetEffect(st: Store, i: nat, val: int, trigger: bool)
    requires Typed(st) && i < |st.vars|
    ensures var st' := Set(st, i, val, trigger);
      && Typed(st') && |st'.vars| == |st.vars| && st'.rep == st.rep
      && Kept(st.vars[i], st'.vars[i]) && st'.vars[i].val == Clamp(val, st.vars[i].min, st.vars[i].max)
      && (forall j :: 0 <= j < |st.vars| && j != i ==> st'.vars[j] == st.vars[j])
    ensures var st', cb := Set(st, i, val, trigger), st.vars[i].wrCb;
      st'.cells == if trigger && cb.Copy? && cb.data.Some? then st.cells[cb.data.value := st'.vars[i].val] else st.cells
    ensures UniqueIds(st) ==> UniqueIds(Set(st, i, val, trigger))
    ensures InRange(st) ==> InRange(Set(st, i, val, trigger))
  {}

  /** With unique identifiers the read callback updates its own variable; it goes
      through a search by identifier. */
  lemma RefreshOwn(st: Store, i: nat)
    requires Typed(st) && UniqueIds(st) && i < |st.vars|
    ensures FirstWithId(st.vars, st.vars[i].id) == i
    ensures var rd := st.vars[i].rdCb;
      Refresh(st, i) == if rd.Copy? && rd.data.Some? then Set(st, i, st.cells[rd.data.value], false) else st
  {
    var k := FirstWithId(st.vars, st.vars[i].id);
    assert k <= i;
  }

  ghost predicate Healthy(st: Store) {
    Typed(st) && UniqueIds(st) && InRange(st)
  }

  /** Setting by identifier sets the variable that has it, wherever that is in the
      table, and without one changes nothing. */
  lemma SetByIdEffect(st: Store, id: int, val: int, trigger: bool)
    requires Healthy(st)
    ensures var st' := SetById(st, id, val, trigger);
      && Healthy(st') && |st'.vars| == |st.vars|
      && (forall j :: 0 <= j < |st.vars| ==>
            st'.vars[j] == if st.vars[j].id == id then st.vars[j].(val := Clamp(val, st.vars[j].min, st.vars[j].max))
                           else st.vars[j])
      && ((forall j :: 0 <= j < |st.vars| ==> st.vars[j].id != id) ==> st' == st)
  {
    var i := FirstWithId(st.vars, id);
    if i < |st.vars| {
      SetEffect(st, i, val, trigger);
    }
  }

  /** A request touches the variables and cells only through Set or Refresh. */
  lemma HandleTouches(st: Store, req: Msg)
    requires Typed(st)
    ensures var st' := Handle(st, req);
      var st1 := if !(0 <= req.ind < |st.vars|) then st
                 else if req.typ == REQ_WR then Set(st, req.ind, req.val, true)
                 else if req.typ == REQ_RD then Refresh(st, req.ind)
                 else st;
      st'.vars == st1.vars && st'.cells == st1.cells && |st'.rep.data| == MSG_DATA_SIZE
  {
    hide Refresh, SetById, Clamp;
  }

  lemma RefreshEffect(st: Store, i: nat)
    requires Healthy(st) && i < |st.vars|
    ensures var st' := Refresh(st, i);
      && Healthy(st') && |st'.vars| == |st.vars| && Kept(st.vars[i], st'.vars[i])
      && forall j :: 0 <= j < |st.vars| && j != i ==> st'.vars[j] == st.vars[j]
  {
    RefreshOwn(st, i);
    var rd := st.vars[i].rdCb;
    if rd.Copy? && rd.data.Some? {
      SetEffect(st, i, st.cells[rd.data.value], false);
    }
  }

  /** Every request leaves every variable within its limits, and changes at most
      the value of the variable it names, and that only when it writes or reads. */
  lemma HandleKeeps(st: Store, req: Msg)
    requires Healthy(st)
    ensures var st' := Handle(st, req);
      && Healthy(st') && |st'.vars| == |st.vars|
      && (forall j :: 0 <= j < |st.vars| ==> Kept(st.vars[j], st'.vars[j]))
      && (forall j :: 0 <= j < |st.vars| && !((req.typ == REQ_WR || req.typ == REQ_RD) && j == req.ind)
            ==> st'.vars[j] == st.vars[j])
  {
    hide Handle, Set, Refresh;
    HandleTouches(st, req);
    if 0 <= req.ind < |st.vars| {
      SetEffect(st, req.ind, req.val, true);
      RefreshEffect(st, req.ind);
    }
  }

  /** A write request for a known variable stores the value within its limits that is
      nearest to the one requested. */
  lemma WriteStoresNearest(st: Store, req: Msg)
    requires Healthy(st) && 0 <= req.ind < |st.vars| && req.typ == REQ_WR
    ensures var v, v' := st.vars[req.ind], Handle(st, req).vars[req.ind];
      && v'.min == v.min <= v'.val <= v.max == v'.max
      && (req.val > v.max ==> v'.val == v.max) && (req.val < v.min ==> v'.val == v.min)
      && (v.min <= req.val <= v.max ==> v'.val == req.val)
  {
    HandleTouches(st, req);
  }

  ghost function CutText(text: string): string {
    if |text| > TEXT_MAX then text[..TEXT_MAX] else text
  }

  /** Every request gets a reply with its own sequence number and index, and of
      the kind that fits it, whatever the reply buffer held before. */
  lemma HandleAnswers(st: Store, req: Msg)
    requires Healthy(st)
    ensures var st' := Handle(st, req);
      var rep := st'.rep;
      var known := 0 <= req.ind < |st.vars|;
      && rep.seqNr == req.seqNr && rep.ind == req.ind && |rep.data| == MSG_DATA_SIZE && rep.len <= TEXT_MAX
      && (rep.typ == RES_N_VARS <==> req.typ == REQ_N_VARS)
      && (rep.typ == RES_N_VARS ==> rep.val == |st.vars|)
      && (rep.typ == RES_ID_ERR <==> !known && req.typ != REQ_NOP && req.typ != REQ_N_VARS)
      && (rep.typ == RES_OK <==> req.typ == REQ_NOP || (known && req.typ == REQ_WR))
      && (rep.typ == RES_RD_VAL <==> known && req.typ == REQ_RD)
      && (rep.typ == RES_RD_VAL ==> rep.val == st'.vars[req.ind].val)
      && (rep.typ == RES_RD_MIN <==> known && req.typ == REQ_RD_MIN)
      && (rep.typ == RES_RD_MIN ==> rep.val == st.vars[req.ind].min)
      && (rep.typ == RES_RD_MAX <==> known && req.typ == REQ_RD_MAX)
      && (rep.typ == RES_RD_MAX ==> rep.val == st.vars[req.ind].max)
      && (rep.typ == RES_NAME <==> known && req.typ == REQ_NAME)
      && (rep.typ == RES_NAME ==>
            rep.data[..rep.len] == CutText(st.vars[req.ind].name) && rep.val == st.vars[req.ind].val)
      && (rep.typ == RES_DESC <==> known && req.typ == REQ_DESC)
      && (rep.typ == RES_DESC ==>
            rep.data[..rep.len] == CutText(st.vars[req.ind].desc) && rep.val == st.vars[req.ind].val)
      && (rep.typ != RES_NAME && rep.typ != RES_DESC ==> rep.len == 0 && rep.data == st.rep.data)
      && (rep.typ == RES_OK ==> rep.val == if req.typ == REQ_NOP then 0 else st.rep.val)
      && (rep.typ == RES_ID_ERR || rep.typ == RES_REQ_ERR ==> rep.val == st.rep.val)
      && (rep.typ == RES_REQ_ERR <==> known && req.typ > REQ_DESC)
  {
    HandleKeeps(st, req);
  }

  /** The value that a read of variable `i` finds to clamp: the cell its read
      callback copies from, or what was last written. */
  ghost function ReadSource(st: Store, i: nat): Option<nat>
    requires i < |st.vars|
  {
    if st.vars[i].rdCb.Copy? then st.vars[i].rdCb.data else None
  }

  /** A read of variable `i` has a value to return that a write of `val` brought
      about: there is no cell to copy from, or the write goes to that cell too, or
      the cell holds a value that clamps to the same. */
  ghost predicate ReadsBack(st: Store, i: nat, val: int)
    requires Typed(st) && i < |st.vars|
  {
    var v, c := st.vars[i], ReadSource(st, i);
    c == None || v.wrCb == v.rdCb || Clamp(st.cells[c.value], v.min, v.max) == Clamp(val, v.min, v.max)
  }

  /** A read right after a write of `v` returns `v` clamped, exactly when the
      store before the write reads back. */
  lemma ReadAfterWrite(st: Store, w: Msg, r: Msg)
    requires Healthy(st) && w.typ == REQ_WR && r.typ == REQ_RD && w.ind == r.ind && 0 <= w.ind < |st.vars|
    ensures var v := st.vars[w.ind];
      var rep := Handle(Handle(st, w), r).rep;
      && rep.typ == RES_RD_VAL
      && (rep.val == Clamp(w.val, v.min, v.max) <==> ReadsBack(st, w.ind, w.val))
  {
    HandleKeeps(st, w);
    var st1 := Handle(st, w);
    SetEffect(st, w.ind, w.val, true);
    RefreshOwn(st1, w.ind);
  }

  /** A variable that is read from one cell and written to none returns the cell's
      old content after a write. */
  lemma StaleRead(rep: Msg)
    requires |rep.data| == MSG_DATA_SIZE
    ensures var st := Store([Var(1, "n", "d", 0, 0, 10, Copy(Some(0)), NoCallback)], [5], rep);
      var w, r := Msg(0, REQ_WR, 0, 3, 0, ""), Msg(1, REQ_RD, 0, 0, 0, "");
      Healthy(st) && !ReadsBack(st, 0, 3) && Handle(Handle(st, w), r).rep.val == 5
  {
    var st := Store([Var(1, "n", "d", 0, 0, 10, Copy(Some(0)), NoCallback)], [5], rep);
    var w, r := Msg(0, REQ_WR, 0, 3, 0, ""), Msg(1, REQ_RD, 0, 0, 0, "");
    HandleKeeps(st, w);
    HandleTouches(st, w);
    RefreshOwn(Handle(st, w), 0);
  }

  // ---------- Whole runs ----------

  datatype StoreOp =
    | Request(req: Msg)
    | SetId(id: int, val: int, trigger: bool)
    | Application(cell: nat, val: int)

  function Perform(st: Store, op: StoreOp): Store
    requires Typed(st)
  {
    match op
    case Request(req) => Handle(st, req)
    case SetId(id, val, trigger) => SetById(st, id, val, trigger)
    case Application(cell, val) => if cell < |st.cells| then st.(cells := st.cells[cell := val]) else st
  }

  lemma PerformKeeps(st: Store, op: StoreOp)
    requires Healthy(st)
    ensures Healthy(Perform(st, op)) && |Perform(st, op).vars| == |st.vars|
    ensures forall j :: 0 <= j < |st.vars| ==> Kept(st.vars[j], Perform(st, op).vars[j])
  {
    match op
    case Request(req) => HandleKeeps(st, req);
    case SetId(id, val, trigger) =>
      var i := FirstWithId(st.vars, id);
      if i < |st.vars| {
        SetEffect(st, i, val, trigger);
      }
    case Application(_, _) =>
  }

  ghost function PerformAll(st: Store, ops: seq<StoreOp>): (st': Store)
    requires Healthy(st)
    ensures Healthy(st') && |st'.vars| == |st.vars|
    ensures forall j :: 0 <= j < |st.vars| ==> Kept(st.vars[j], st'.vars[j])
    decreases |ops|
  {
    if ops == [] then st else PerformKeeps(st, ops[0]); PerformAll(Perform(st, ops[0]), ops[1..])
  }

  ghost predicate CopiesTo(cb: Callback, c: Option<nat>) {
    c.Some? && cb == Copy(c)
  }

  /** The operation does not set variable i, and does not write the cell that its
      read callback copies from. */
  ghost predicate Spares(st: Store, op: StoreOp, i: nat)
    requires i < |st.vars|
  {
    var c := ReadSource(st, i);
    match op
    case Request(req) => req.typ == REQ_WR ==>
      req.ind != i && (0 <= req.ind < |st.vars| ==> !CopiesTo(st.vars[req.ind].wrCb, c))
    case SetId(id, _, trigger) =>
      id != st.vars[i].id && (trigger ==>
        forall j :: 0 <= j < |st.vars| && st.vars[j].id == id ==> !CopiesTo(st.vars[j].wrCb, c))
    case Application(cell, _) => c != Some(cell)
  }

  /** What a read of variable i depends on is the same in both stores. */
  ghost predicate SameSource(st: Store, st': Store, i: nat)
    requires Typed(st) && Typed(st') && i < |st.vars| == |st'.vars|
  {
    var c := ReadSource(st, i);
    && Kept(st.vars[i], st'.vars[i])
    && (c == None ==> st'.vars[i] == st.vars[i])
    && (c.Some? ==> |st'.cells| == |st.cells| && st'.cells[c.value] == st.cells[c.value])
  }

  lemma SparedStays(st: Store, op: StoreOp, i: nat)
    requires Healthy(st) && i < |st.vars| && Spares(st, op, i)
    ensures |Perform(st, op).vars| == |st.vars| && Typed(Perform(st, op)) && SameSource(st, Perform(st, op), i)
  {
    hide Handle, Set, Refresh, Clamp;
    PerformKeeps(st, op);
    match op
    case Request(req) =>
      HandleKeeps(st, req);
      HandleTouches(st, req);
      if 0 <= req.ind < |st.vars| {
        SetEffect(st, req.ind, req.val, true);
        RefreshTouches(st, req.ind);
      }
    case SetId(id, val, trigger) =>
      SetByIdEffect(st, id, val, trigger);
      var k := FirstWithId(st.vars, id);
      if k < |st.vars| {
        SetEffect(st, k, val, trigger);
      }
    case Application(_, _) =>
  }

  /** A read callback changes no cell, and nothing at all without a source. */
  lemma RefreshTouches(st: Store, i: nat)
    requires Healthy(st) && i < |st.vars|
    ensures Refresh(st, i).cells == st.cells
    ensures ReadSource(st, i) == None ==> Refresh(st, i) == st
  {
    RefreshOwn(st, i);
    if ReadSource(st, i).Some? {
      SetEffect(st, i, st.cells[ReadSource(st, i).value], false);
    }
  }

  lemma {:induction false} SourceStays(st: Store, ops: seq<StoreOp>, i: nat)
    requires Healthy(st) && i < |st.vars|
    requires forall k :: 0 <= k < |ops| ==> Spares(st, ops[k], i)
    ensures SameSource(st, PerformAll(st, ops), i)
    decreases |ops|
  {
    if ops != [] {
      var st1 := Perform(st, ops[0]);
      PerformKeeps(st, ops[0]);
      SparedStays(st, ops[0], i);
      forall k | 0 <= k < |ops[1..]| ensures Spares(st1, ops[1..][k], i) {
        assert Spares(st, ops[k + 1], i);
      }
      SourceStays(st1, ops[1..], i);
    }
  }

  /** What a read returns: the clamped content of the cell that the read callback
      copies from, or without one the value in the store. */
  lemma ReadReturns(st: Store, r: Msg)
    requires Healthy(st) && 0 <= r.ind < |st.vars| && r.typ == REQ_RD
    ensures var v, c, rep := st.vars[r.ind], ReadSource(st, r.ind), Handle(st, r).rep;
      rep.typ == RES_RD_VAL && rep.val == if c.Some? then Clamp(st.cells[c.value], v.min, v.max) else v.val
  {
    HandleAnswers(st, r);
    HandleTouches(st, r);
    RefreshOwn(st, r.ind);
  }

  /** After any run of requests, sets by identifier and application writes that
      set neither the variable nor the cell it is read from, a read returns the
      last value written, clamped, exactly when the store before the write reads
      back; whatever callbacks this and the other variables have. */
  lemma LastWriteIsRead(st: Store, w: Msg, ops: seq<StoreOp>, r: Msg)
    requires Healthy(st) && 0 <= w.ind < |st.vars|
    requires w.typ == REQ_WR && r.typ == REQ_RD && r.ind == w.ind
    requires forall k :: 0 <= k < |ops| ==> Spares(st, ops[k], w.ind)
    ensures Healthy(Handle(st, w))
    ensures var v, rep := st.vars[w.ind], Handle(PerformAll(Handle(st, w), ops), r).rep;
      && rep.typ == RES_RD_VAL
      && (rep.val == Clamp(w.val, v.min, v.max) <==> ReadsBack(st, w.ind, w.val))
  {
    hide Handle, Set, Clamp, PerformAll;
    HandleKeeps(st, w);
    HandleTouches(st, w);
    SetEffect(st, w.ind, w.val, true);
    var st1 := Handle(st, w);
    forall k | 0 <= k < |ops| ensures Spares(st1, ops[k], w.ind) {
      assert Spares(st, ops[k], w.ind);
    }
    SourceStays(st1, ops, w.ind);
    ReadReturns(PerformAll(st1, ops), r);
    ClampInRange(st.vars[w.ind].min, st.vars[w.ind].max);
  }
}
