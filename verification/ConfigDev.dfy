/** The configuration module of the firmware with its global arrays. */
module ConfigDev {
  import opened Common
  import opened Config

  /** `BeyondTable`: the guard of `cfgSetInd` admits the index one past the end. */
  datatype SetResult = Done | Refused | BeyondTable

  class ConfigTable {
    const vars: array<Var>
    const cells: array<int>
    var rep: Msg

    ghost function View(): Store
      reads this, vars, cells
    {
      Store(vars[..], cells[..], rep)
    }

    constructor (vars: array<Var>, cells: array<int>, rep: Msg)
      requires Healthy(Store(vars[..], cells[..], rep))
      ensures View() == Store(vars[..], cells[..], rep) && Healthy(View())
      ensures this.vars == vars && this.cells == cells
    {
      this.vars, this.cells, this.rep := vars, cells, rep;
    }

    /** `cfgCpyCB` as write callback of variable `i`. */
    method CopyOut(i: nat)
      requires Typed(View()) && i < vars.Length
      modifies cells
      ensures View() == old(View()).(cells := if vars[i].wrCb.Copy? && vars[i].wrCb.data.Some?
        then old(cells[..])[vars[i].wrCb.data.value := vars[i].val] else old(cells[..]))
    {
      if vars[i].wrCb.Copy? {
        match vars[i].wrCb.data
        case None => return;
        case Some(c) =>
          assert CallbackTyped(View().vars[i].wrCb, |View().cells|);
          cells[c] := vars[i].val;
      }
    }

    method SetInd(i: int, val: int, trigger: bool) returns (r: SetResult)
      requires Typed(View())
      modifies vars, cells
      ensures r == (if i < 0 || i > vars.Length then Refused else if i == vars.Length then BeyondTable else Done)
      ensures View() == if r == Done then Set(old(View()), i, val, trigger) else old(View())
      ensures r == Done && vars[i].min <= vars[i].max ==>
        && (val > vars[i].max ==> vars[i].val == vars[i].max) && (val < vars[i].min ==> vars[i].val == vars[i].min)
        && (vars[i].min <= val <= vars[i].max ==> vars[i].val == val)
    {
      if i < 0 {
        return Refused;
      }
      if i > vars.Length {
        return Refused;
      }
      if i == vars.Length {
        return BeyondTable;
      }
      SetEffect(View(), i, val, false);
      var v: int := val;
      if v > vars[i].max {
        v := vars[i].max;
      }
      if v < vars[i].min {
        v := vars[i].min;
      }
      vars[i] := vars[i].(val := v);
      assert View() == Set(old(View()), i, val, false);
      if trigger {
        CopyOut(i);
      }
      r := Done;
    }

    method SetId(id: int, val: int, trigger: bool) returns (found: bool)
      requires Typed(View())
      modifies vars, cells
      ensures found <==> exists i :: 0 <= i < |old(vars[..])| && old(vars[..])[i].id == id
      ensures View() == SetById(old(View()), id, val, trigger)
    {
      var i := 0;
      while i < vars.Length
        invariant 0 <= i <= vars.Length && vars[..] == old(vars[..]) && cells[..] == old(cells[..])
        invariant forall j :: 0 <= j < i ==> vars[..][j].id != id
      {
        if vars[i].id == id {
          FirstIs(vars[..], id, i);
          var r := SetInd(i, val, trigger);
          return r == Done;
        }
        i := i + 1;
      }
      FirstIs(vars[..], id, i);
      found := false;
    }

    /** `cfgCpyCB` as read callback of variable `i`. */
    method CopyIn(i: nat)
      requires Typed(View()) && i < vars.Length
      modifies vars, cells
      ensures View() == Refresh(old(View()), i)
    {
      if vars[i].rdCb.Copy? {
        match vars[i].rdCb.data
        case None => return;
        case Some(c) =>
          assert CallbackTyped(View().vars[i].rdCb, |View().cells|);
          var _ := SetId(vars[i].id, cells[c], false);
      }
    }

    method PutText(typ: nat, text: string, val: int)
      requires |rep.data| == MSG_DATA_SIZE
      modifies this`rep
      ensures rep == TextReply(old(rep), typ, text, val)
    {
      var n := |text|;
      if n > CFG_BUF_LEN - MSG_SIZE {
        n := CFG_BUF_LEN - MSG_SIZE;
      }
      rep := rep.(len := n, data := text[..n] + rep.data[n..]);
      rep := rep.(val := val, typ := typ);
    }

    /** `config_msg_handler`: the reply buffer is sent at the end. */
    method MsgHandler(req: Msg) returns (sent: Msg)
      requires Typed(View())
      modifies this`rep, vars, cells
      ensures View() == Handle(old(View()), req)
      ensures sent == View().rep
    {
      rep := rep.(seqNr := req.seqNr, ind := req.ind, len := 0);
      if req.typ == REQ_NOP {
        rep := rep.(typ := RES_OK, val := 0);
        return rep;
      }
      if req.typ == REQ_N_VARS {
        rep := rep.(typ := RES_N_VARS, val := vars.Length);
        return rep;
      }
      var ind := req.ind;
      if ind >= vars.Length || ind < 0 {
        rep := rep.(typ := RES_ID_ERR);
        return rep;
      }
      if req.typ == REQ_WR {
        var r := SetInd(ind, req.val, true);
        rep := rep.(typ := if r == Done then RES_OK else RES_ID_ERR);
      } else if req.typ == REQ_RD {
        CopyIn(ind);
        assert |View().vars| == vars.Length;
        rep := rep.(val := vars[ind].val, typ := RES_RD_VAL);
      } else if req.typ == REQ_RD_MIN {
        rep := rep.(val := vars[ind].min, typ := RES_RD_MIN);
      } else if req.typ == REQ_RD_MAX {
        rep := rep.(val := vars[ind].max, typ := RES_RD_MAX);
      } else if req.typ == REQ_NAME {
        PutText(RES_NAME, vars[ind].name, vars[ind].val);
      } else if req.typ == REQ_DESC {
        PutText(RES_DESC, vars[ind].desc, vars[ind].val);
      } else {
        rep := rep.(typ := RES_REQ_ERR);
      }
      sent := rep;
    }
  }

  lemma {:induction false} FirstIs(vars: seq<Var>, id: int, i: nat)
    requires i <= |vars| && (forall j :: 0 <= j < i ==> vars[j].id != id) && (i < |vars| ==> vars[i].id == id)
    ensures FirstWithId(vars, id) == i
  {
    if i > 0 {
      FirstIs(vars[1..], id, i - 1);
    }
  }
}
