/** The kernel's end of the configuration protocol: transactions, the list of
    pending ones, and the matching of responses by sequence number. */
module RpmsgLink {
  import opened Common
  import opened Config
  import opened Numerals

  const SEQ_RANGE := 0x1_0000_0000
  const IO_BUF_SIZE := MSG_DATA_SIZE
  const EINVAL := 22

  /** `buf` is the text in the buffer up to its terminating NUL. */
  datatype Trans = Trans(seqNr: nat, len: nat, buf: string, dirty: bool, valid: bool, rnw: bool, err: int)

  const CLEARED := Trans(0, 0, "", false, false, false, 0)

  datatype Access = AccName | AccVal | AccMin | AccMax | AccDesc

  /** T stands for transaction references; `pending` and `unused` are the two
      lists, newest first. */
  datatype Kernel<T> = Kernel(pending: seq<T>, unused: seq<T>, trans: map<T, Trans>, nextSeq: nat, nVars: int)

  // ---------- Text ----------

  function Decimal(n: int): string {
    if n < 0 then "-" + Numeral(-n, 10) else Numeral(n, 10)
  }

  /** Digits without a leading zero that denote n. */
  ghost predicate Figures(d: string, n: nat) {
    && d != "" && (forall i :: 0 <= i < |d| ==> '0' <= d[i] <= '9') && (|d| > 1 ==> d[0] != '0')
    && Denotes(d, 10) == n
  }

  /** The text reads as the number, with a minus exactly for a negative one. */
  ghost predicate Spells(text: string, n: int) {
    if n < 0 then text != "" && text[0] == '-' && Figures(text[1..], -n) else Figures(text, n)
  }

  lemma DecimalSpells(n: int)
    ensures Spells(Decimal(n), n)
    ensures -0x8000_0000 <= n < 0x1_0000_0000 ==> |Decimal(n)| <= 11
  {
    NumeralDenotes(Abs(n), 10);
    hide Numeral, Denotes;
    assert n < 0 ==> Decimal(n)[1..] == Numeral(-n, 10);
    if -0x8000_0000 <= n < 0x1_0000_0000 {
      assert Pow10(10) == 10_000_000_000;
      NumeralShort(Abs(n), 10, 10);
    }
  }

  /** A text spells at most one number. */
  lemma SpellsOne(text: string, n: int, m: int)
    requires Spells(text, n) && Spells(text, m)
    ensures n == m
  {
    hide Denotes;
  }

  /** `scnprintf` cuts its text to the buffer. */
  function Printed(text: string): (r: string)
    ensures |r| <= 399 && r <= text && (|text| <= 399 ==> r == text)
  {
    if |text| > IO_BUF_SIZE - 1 then text[..IO_BUF_SIZE - 1] else text
  }

  /** An unsigned 32-bit number printed with %d. */
  function Signed32(n: nat): (r: Int32)
    ensures (n - r) % SEQ_RANGE == 0
  {
    if n % SEQ_RANGE < 0x8000_0000 then n % SEQ_RANGE else n % SEQ_RANGE - SEQ_RANGE
  }

  function WithText(t: Trans, text: string, err: int): Trans {
    t.(buf := Printed(text), len := |Printed(text)|, valid := true, err := err)
  }

  /** What the response `m` does to the transaction it completes. */
  function Fill(t: Trans, m: Msg): Trans
    requires |m.data| == MSG_DATA_SIZE
  {
    if m.typ == RES_OK then t.(len := 0, valid := true, err := 0)
    else if m.typ == RES_N_VARS then t.(len := 0, valid := true)
    else if m.typ == RES_RD_VAL || m.typ == RES_RD_MIN || m.typ == RES_RD_MAX then
      WithText(t, Decimal(m.val) + "\n", 0)
    else if m.typ == RES_NAME || m.typ == RES_DESC then
      if m.len > IO_BUF_SIZE - 1 then WithText(t, "data part of response too long\n", -EINVAL)
      else t.(buf := m.data[..m.len], len := m.len, err := 0, valid := true)
    else if m.typ == RES_ID_ERR then
      WithText(t, "received ID error for id " + Decimal(m.ind) + " in msg nr " + Decimal(Signed32(m.seqNr)) + "\n", RES_ID_ERR)
    else if m.typ == RES_REQ_ERR then
      WithText(t, "received request error for msg nr " + Decimal(Signed32(m.seqNr)) + "\n", RES_REQ_ERR)
    else
      WithText(t, "unknonw type " + Decimal(m.ind) + " in msg nr " + Decimal(Signed32(m.seqNr)) + "\n", -1)
  }

  /** Responses that no request of this driver gets: a text that does not fit, and
      an unknown type. */
  lemma FillOther(t: Trans, m: Msg)
    requires |m.data| == MSG_DATA_SIZE
    ensures m.typ == RES_NAME || m.typ == RES_DESC ==>
      if m.len <= 399 then Fill(t, m) == t.(buf := m.data[..m.len], len := m.len, err := 0, valid := true)
      else Fill(t, m).err == -22 && Fill(t, m).valid && Fill(t, m).buf == "data part of response too long\n"
    ensures 136 <= m.typ < 255 && -0x8000_0000 <= m.ind < 0x8000_0000 ==>
      && Fill(t, m).err == -1 && Fill(t, m).valid
      && exists a, b :: Spells(a, m.ind) && Spells(b, Signed32(m.seqNr))
           && Fill(t, m).buf == "unknonw type " + a + " in msg nr " + b + "\n"
  {
    hide Spells, Decimal;
    DecimalSpells(m.ind);
    DecimalSpells(Signed32(m.seqNr));
  }

  // ---------- The kernel's operations on values ----------

  ghost predicate KernelInv<T>(k: Kernel<T>) {
    && k.nextSeq < SEQ_RANGE
    && (forall t :: t in k.pending ==> t in k.trans)
    && (forall t :: t in k.unused ==> t in k.trans)
    && (forall t :: t in k.pending ==> t !in k.unused)
    && (forall i, j :: 0 <= i < j < |k.pending| ==> k.pending[i] != k.pending[j])
    && (forall i, j :: 0 <= i < j < |k.unused| ==> k.unused[i] != k.unused[j])
  }

  function RequestType(acc: Access, rnw: bool): nat {
    match acc
    case AccName => REQ_NAME
    case AccVal => if rnw then REQ_RD else REQ_WR
    case AccMin => REQ_RD_MIN
    case AccMax => REQ_RD_MAX
    case AccDesc => REQ_DESC
  }

  /** A write needs the number that `kstrtol` finds in the buffer. */
  predicate CanRequest(tr: Trans, acc: Access, parsed: Option<int>) {
    acc == AccVal && !tr.rnw ==> parsed.Some?
  }

  function RequestFor(seqNr: nat, tr: Trans, index: int, acc: Access, parsed: Option<int>): Msg
    requires CanRequest(tr, acc, parsed)
  {
    Msg(seqNr, RequestType(acc, tr.rnw), index, if acc == AccVal && !tr.rnw then parsed.value else 0, 0, "")
  }

  function CountRequest(seqNr: nat): Msg {
    Msg(seqNr, REQ_N_VARS, -1, 0, 0, "")
  }

  /** `t` becomes pending under the next sequence number. */
  function Submit<T>(k: Kernel<T>, t: T): Kernel<T>
    requires t in k.trans
  {
    k.(pending := [t] + k.pending, trans := k.trans[t := k.trans[t].(seqNr := k.nextSeq)],
       nextSeq := (k.nextSeq + 1) % SEQ_RANGE)
  }

  /** The first pending transaction with this sequence number. */
  function Find<T>(k: Kernel<T>, seqNr: nat): (i: nat)
    requires forall t :: t in k.pending ==> t in k.trans
    ensures i <= |k.pending|
    ensures i < |k.pending| ==> k.trans[k.pending[i]].seqNr == seqNr
    ensures forall j :: 0 <= j < i ==> k.trans[k.pending[j]].seqNr != seqNr
    decreases |k.pending|
  {
    if k.pending == [] || k.trans[k.pending[0]].seqNr == seqNr then 0
    else 1 + Find(k.(pending := k.pending[1..]), seqNr)
  }

  function Without<T>(s: seq<T>, i: nat): seq<T>
    requires i < |s|
  {
    s[..i] + s[i + 1..]
  }

  /** `cfg_mgmt_rpmsg_cb` on a response of the right size. */
  function Complete<T>(k: Kernel<T>, m: Msg): Kernel<T>
    requires (forall t :: t in k.pending ==> t in k.trans) && |m.data| == MSG_DATA_SIZE
  {
    var i := Find(k, m.seqNr);
    if i == |k.pending| then k
    else
      var t := k.pending[i];
      k.(pending := Without(k.pending, i), trans := k.trans[t := Fill(k.trans[t], m)],
         nVars := if m.typ == RES_N_VARS then m.val else k.nVars)
  }

  /** `t` comes from the head of the unused list, or is new when that is empty. */
  ghost predicate CanAlloc<T>(k: Kernel<T>, t: T) {
    if k.unused != [] then t == k.unused[0] else t !in k.trans
  }

  function Alloc<T>(k: Kernel<T>, t: T): Kernel<T> {
    k.(unused := if k.unused != [] then k.unused[1..] else [], trans := k.trans[t := CLEARED])
  }

  function Return<T>(k: Kernel<T>, t: T): Kernel<T> {
    k.(unused := [t] + k.unused, trans := k.trans[t := CLEARED])
  }

  lemma ListsKnown<T>(k: Kernel<T>)
    requires KernelInv(k)
    ensures forall t :: t in k.pending || t in k.unused ==> t in k.trans
  {}

  lemma SubmitKeeps<T>(k: Kernel<T>, t: T)
    requires KernelInv(k) && t in k.trans && t !in k.pending && t !in k.unused
    ensures KernelInv(Submit(k, t))
  {}

  lemma AllocKeeps<T>(k: Kernel<T>, t: T)
    requires KernelInv(k) && CanAlloc(k, t)
    ensures KernelInv(Alloc(k, t)) && t !in Alloc(k, t).unused && t !in k.pending
  {}

  lemma ReturnKeeps<T>(k: Kernel<T>, t: T)
    requires KernelInv(k) && t in k.trans && t !in k.pending && t !in k.unused
    ensures KernelInv(Return(k, t))
  {}

  lemma WithoutMembers<T>(s: seq<T>, i: nat)
    requires i < |s| && forall j, k :: 0 <= j < k < |s| ==> s[j] != s[k]
    ensures var r := Without(s, i);
      && (forall j, k :: 0 <= j < k < |r| ==> r[j] != r[k])
      && (forall t :: t in r <==> t in s && t != s[i])
  {
    var r := Without(s, i);
    assert forall j :: 0 <= j < |r| ==> r[j] == if j < i then s[j] else s[j + 1];
    forall t | t in s && t != s[i] ensures t in r {
      var j :| 0 <= j < |s| && s[j] == t;
      assert r[if j < i then j else j - 1] == t;
    }
  }

  lemma CompleteKeeps<T>(k: Kernel<T>, m: Msg)
    requires KernelInv(k) && |m.data| == MSG_DATA_SIZE
    ensures KernelInv(Complete(k, m))
    ensures var i := Find(k, m.seqNr);
      i < |k.pending| ==> forall t :: t in Complete(k, m).pending <==> t in k.pending && t != k.pending[i]
  {
    hide Fill, Find;
    var i := Find(k, m.seqNr);
    if i < |k.pending| {
      WithoutMembers(k.pending, i);
    }
  }
}
