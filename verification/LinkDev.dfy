/** The kernel driver's transaction objects and lists. */
module LinkDev {
  import opened Common
  import opened Config
  import opened RpmsgLink

  class Transaction {
    var seqNr: nat
    var len: nat
    var buf: string
    var dirty: bool
    var valid: bool
    var rnw: bool
    var err: int

    constructor ()
      ensures View() == CLEARED
    {
      seqNr, len, buf, dirty, valid, rnw, err := 0, 0, "", false, false, false, 0;
    }

    ghost function View(): Trans
      reads this
    {
      Trans(seqNr, len, buf, dirty, valid, rnw, err)
    }

    method Clear()
      modifies this
      ensures View() == CLEARED
    {
      seqNr, len, buf, dirty, valid, rnw, err := 0, 0, "", false, false, false, 0;
    }

    method PutText(text: string, e: int)
      modifies this
      ensures View() == WithText(old(View()), text, e)
    {
      buf := Printed(text);
      len := |buf|;
      err := e;
      valid := true;
    }

    /** The switch of `cfg_mgmt_rpmsg_cb` over the response type. */
    method Accept(m: Msg)
      requires |m.data| == MSG_DATA_SIZE
      modifies this
      ensures View() == Fill(old(View()), m)
    {
      if m.typ == RES_OK {
        len, valid, err := 0, true, 0;
      } else if m.typ == RES_N_VARS {
        len, valid := 0, true;
      } else if m.typ == RES_RD_VAL || m.typ == RES_RD_MIN || m.typ == RES_RD_MAX {
        PutText(Decimal(m.val) + "\n", 0);
      } else if m.typ == RES_NAME || m.typ == RES_DESC {
        if m.len > IO_BUF_SIZE - 1 {
          PutText("data part of response too long\n", -EINVAL);
        } else {
          buf := m.data[..m.len];
          len := m.len;
          err := 0;
        }
        valid := true;
      } else if m.typ == RES_ID_ERR {
        PutText("received ID error for id " + Decimal(m.ind) + " in msg nr " + Decimal(Signed32(m.seqNr)) + "\n", RES_ID_ERR);
      } else if m.typ == RES_REQ_ERR {
        PutText("received request error for msg nr " + Decimal(Signed32(m.seqNr)) + "\n", RES_REQ_ERR);
      } else {
        PutText("unknonw type " + Decimal(m.ind) + " in msg nr " + Decimal(Signed32(m.seqNr)) + "\n", -1);
      }
    }
  }

  class Link {
    var pending: seq<Transaction>
    var unused: seq<Transaction>
    var nextSeq: nat
    var nVars: int
    ghost var known: set<Transaction>

    ghost function View(): Kernel<Transaction>
      reads this, known
    {
      Kernel(pending, unused, map t | t in known :: t.View(), nextSeq, nVars)
    }

    ghost predicate Valid()
      reads this, known
    {
      KernelInv(View())
    }

    constructor ()
      ensures Valid() && fresh(known)
      ensures View() == Kernel([], [], map[], 0, -1)
    {
      pending, unused, nextSeq, nVars, known := [], [], 0, -1, {};
    }

    /** `access_var` up to the send; an error leaves everything as it was. */
    method AccessVar(index: int, acc: Access, t: Transaction, parsed: Option<int>) returns (req: Option<Msg>)
      requires Valid() && t in known && t !in pending && t !in unused
      modifies this, t
      ensures Valid() && known == old(known)
      ensures req == None <==> acc == AccVal && !old(t.rnw) && parsed == None
      ensures req.Some? ==>
        && req.value.seqNr == old(nextSeq) && req.value.ind == index && req.value.len == 0
        && req.value.val == (if acc == AccVal && !old(t.rnw) then parsed.value else 0)
        && req.value == RequestFor(old(nextSeq), old(t.View()), index, acc, parsed)
        && View() == Submit(old(View()), t)
      ensures req == None ==> View() == old(View())
    {
      hide KernelInv, Submit;
      var typ: nat, val := 0, 0;
      match acc {
      case AccVal =>
        if t.rnw {
          typ := REQ_RD;
        } else {
          typ := REQ_WR;
          if parsed == None {
            return None;
          }
          val := parsed.value;
        }
      case AccMin => typ := REQ_RD_MIN;
      case AccMax => typ := REQ_RD_MAX;
      case AccDesc => typ := REQ_DESC;
      case AccName => typ := REQ_NAME;
      }
      var seqNr := AddPending(t);
      req := Some(Msg(seqNr, typ, index, val, 0, ""));
    }

    /** The next sequence number is taken and `t` becomes pending under it. */
    method AddPending(t: Transaction) returns (seqNr: nat)
      requires Valid() && t in known && t !in pending && t !in unused
      modifies this`nextSeq, this`pending, t`seqNr
      ensures Valid() && seqNr == old(nextSeq) && View() == Submit(old(View()), t)
    {
      hide KernelInv;
      SubmitKeeps(View(), t);
      ghost var trans := View().trans;
      seqNr := nextSeq;
      nextSeq := (nextSeq + 1) % SEQ_RANGE;
      t.seqNr := seqNr;
      pending := [t] + pending;
      assert View().trans == trans[t := trans[t].(seqNr := seqNr)];
      assert View() == Submit(old(View()), t);
    }

    /** `cfg_mgmt_rpmsg_cb`: responses of a wrong size, or for no pending
        transaction, are dropped. */
    method Callback(m: Msg, size: nat)
      requires Valid() && |m.data| == MSG_DATA_SIZE
      modifies this, pending
      ensures Valid() && known == old(known)
      ensures View() == if size == MSG_SIZE then Complete(old(View()), m) else old(View())
    {
      hide Fill, KernelInv;
      ListsKnown(View());
      if size != MSG_SIZE {
        return;
      }
      CompleteKeeps(View(), m);
      var i := FindPending(m.seqNr);
      if i == |pending| {
        return;
      }
      var t := pending[i];
      pending := Without(pending, i);
      if m.typ == RES_N_VARS {
        nVars := m.val;
      }
      t.Accept(m);
      assert View() == Complete(old(View()), m);
    }

    /** The search of the callback through the pending list. */
    method FindPending(seqNr: nat) returns (i: nat)
      requires Valid()
      ensures i == Find(View(), seqNr) && (i < |pending| ==> pending[i] in known)
    {
      ListsKnown(View());
      i := 0;
      while i < |pending| && pending[i].seqNr != seqNr
        invariant 0 <= i <= |pending|
        invariant forall j :: 0 <= j < i ==> pending[j].seqNr != seqNr
      {
        i := i + 1;
      }
      forall j | 0 <= j < |pending| ensures pending[j] in known {
        assert pending[j] in View().pending && pending[j] in View().trans;
      }
      FindIs(View(), seqNr, i);
    }

    method AllocTrans() returns (t: Transaction)
      requires Valid()
      modifies this, unused
      ensures Valid() && CanAlloc(old(View()), t) && View() == Alloc(old(View()), t)
      ensures t.View() == Trans(0, 0, "", false, false, false, 0)
      ensures if old(unused) != [] then t == old(unused)[0] && unused == old(unused)[1..] else fresh(t) && unused == []
      ensures known == old(known) + {t} && (t in old(known) || fresh(t))
      ensures t in known && t !in pending && t !in unused
    {
      hide KernelInv;
      ListsKnown(View());
      if unused != [] {
        t := unused[0];
        assert t in View().unused && t in View().trans;
        AllocKeeps(View(), t);
        unused := unused[1..];
      } else {
        t := new Transaction();
        AllocKeeps(View(), t);
        known := known + {t};
      }
      t.Clear();
      assert View() == Alloc(old(View()), t);
    }

    method ReturnTrans(t: Transaction)
      requires Valid() && t in known && t !in pending && t !in unused
      modifies this, t
      ensures Valid() && known == old(known) && View() == Return(old(View()), t)
      ensures t.View() == Trans(0, 0, "", false, false, false, 0) && unused == [t] + old(unused)
    {
      hide KernelInv;
      ReturnKeeps(View(), t);
      t.Clear();
      unused := [t] + unused;
      assert View() == Return(old(View()), t);
    }
  }

  lemma {:induction false} FindIs<T>(k: Kernel<T>, seqNr: nat, i: nat)
    requires forall t :: t in k.pending ==> t in k.trans
    requires i <= |k.pending| && (forall j :: 0 <= j < i ==> k.trans[k.pending[j]].seqNr != seqNr)
    requires i < |k.pending| ==> k.trans[k.pending[i]].seqNr == seqNr
    ensures Find(k, seqNr) == i
    decreases i
  {
    if i > 0 {
      FindIs(k.(pending := k.pending[1..]), seqNr, i - 1);
    }
  }
}
