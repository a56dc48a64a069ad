/** `mcount` and its table in place: `froms` is filled from its start, `tos` from
    its end, so the pointer `tos` moves down with every new callee entry while
    links, counted from the end, stay valid. */
module Mcount {
  import opened CallGraph

  datatype GmonState = ProfOn | ProfBusy | ProfError | ProfOff

  /** One profiled section.  `tos` is the index in `tosMem` at which the callee
      table currently starts. */
  class GmonParam {
    const lowpc: Pc
    const highpc: Pc
    const froms: array<FromEntry>
    const tosMem: array<ToEntry>
    var state: GmonState
    var fromssize: nat
    var tos: nat
    var tossize: nat
    ghost var owner: seq<nat>
    ghost var calls: seq<Call>

    ghost predicate Layout()
      reads this
    {
      fromssize <= froms.Length && tos + tossize == tosMem.Length
    }

    /** The callee entries, numbered from the far end of the table. */
    ghost function Recs(): (r: seq<ToEntry>)
      requires Layout()
      reads this, tosMem
    {
      seq(tossize, k requires 0 <= k < tossize && Layout() reads this, tosMem => tosMem[tosMem.Length - 1 - k])
    }

    ghost function Contents(): Table
      requires Layout()
      reads this, froms, tosMem
    {
      Table(froms[..fromssize], Recs())
    }

    ghost predicate Valid()
      reads this, froms, tosMem
    {
      Layout() && Inv(Contents(), owner, calls)
    }

    constructor (lowpc: Pc, highpc: Pc, froms: array<FromEntry>, tosMem: array<ToEntry>)
      ensures Valid() && calls == []
      ensures this.lowpc == lowpc && this.highpc == highpc && this.froms == froms && this.tosMem == tosMem
    {
      this.lowpc, this.highpc, this.froms, this.tosMem := lowpc, highpc, froms, tosMem;
      state, fromssize, tos, tossize := ProfOff, 0, tosMem.Length, 0;
      owner, calls := [], [];
      new;
      EmptyInv();
      assert Contents() == Table([], []);
    }

    method SearchPc(frompc: Pc) returns (index: int)
      requires Layout()
      ensures index == FindFrom(Contents().froms, frompc)
    {
      index := 0;
      while index < fromssize && froms[index].frompc != frompc
        invariant 0 <= index <= fromssize
        invariant forall j :: 0 <= j < index ==> froms[j].frompc != frompc
      {
        index := index + 1;
      }
      if index == fromssize {
        index := -1;
      }
    }

    /** The walk along a chain: `toindex` alternates between a link, counted from
        the end, and an index counted from `tos`.  Returns an index counted from
        `tos`, or -1. */
    method SearchTo(link: int, selfpc: Pc) returns (toindex: int)
      requires Layout() && LinksDecrease(Recs()) && NO_LINK <= link < tossize
      ensures var k := Walk(Recs(), link, selfpc);
              toindex == if k == NO_LINK then -1 else tossize - k - 1
    {
      toindex := link;
      while toindex != -1
        invariant NO_LINK <= toindex < tossize
        invariant Walk(Recs(), toindex, selfpc) == Walk(Recs(), link, selfpc)
        decreases toindex
      {
        assert tosMem[tosMem.Length - 1 - toindex] == Recs()[toindex];
        toindex := (tossize - toindex) - 1;
        if tosMem[tos + toindex].selfpc == selfpc {
          return;
        }
        toindex := tosMem[tos + toindex].link;
      }
    }

    method AddFrom(frompc: Pc) returns (fromindex: int)
      requires Layout() && fromssize < froms.Length
      modifies this`fromssize, froms
      ensures Layout() && fromindex == old(fromssize)
      ensures Contents() == Table(old(Contents()).froms + [FromEntry(frompc, NO_LINK)], old(Contents()).recs)
    {
      fromindex := fromssize;
      fromssize := fromssize + 1;
      froms[fromindex] := FromEntry(frompc, NO_LINK);
    }

    method BumpTo(toindex: int)
      requires Layout() && 0 <= toindex < tossize
      modifies tosMem
      ensures Layout()
      ensures Contents() == Table(old(Contents()).froms, Bumped(old(Contents()).recs, tossize - toindex - 1))
    {
      ghost var k := tossize - toindex - 1;
      assert tosMem[tos + toindex] == Recs()[k];
      tosMem[tos + toindex] := tosMem[tos + toindex].(count := tosMem[tos + toindex].count + 1);
      assert Recs() == Bumped(old(Recs()), k);
    }

    method PushTo(fromindex: int, selfpc: Pc)
      requires Layout() && 0 <= fromindex < fromssize && tossize < tosMem.Length
      modifies this`tos, this`tossize, froms, tosMem
      ensures Layout()
      ensures Contents() == Push(old(Contents()), fromindex, selfpc)
    {
      tos := tos - 1;
      tossize := tossize + 1;
      tosMem[tos] := ToEntry(selfpc, 1, froms[fromindex].link);
      froms[fromindex] := froms[fromindex].(link := ToShort(tossize - 1));
      assert Recs() == old(Recs()) + [ToEntry(selfpc, 1, old(froms[fromindex].link))];
    }

    /** The part of `mcount` that works on the section it has found. */
    method Update(frompc: Pc, selfpc: Pc)
      requires Layout() && WellLinked(Contents())
      requires |Record(Contents(), frompc, selfpc).froms| <= froms.Length
      requires |Record(Contents(), frompc, selfpc).recs| <= tosMem.Length
      modifies this`state, this`fromssize, this`tos, this`tossize, froms, tosMem
      ensures Layout() && Contents() == Record(old(Contents()), frompc, selfpc)
      ensures state == ProfOn
    {
      ghost var t := Contents();
      var toindex := -1;
      var fromindex := SearchPc(frompc);
      if fromindex == -1 {
        fromindex := AddFrom(frompc);
      } else {
        toindex := SearchTo(froms[fromindex].link, selfpc);
      }
      assert Contents() == WithFrom(t, frompc) && fromindex == FromIndex(t, frompc);
      if toindex != -1 {
        BumpTo(toindex);
      } else {
        PushTo(fromindex, selfpc);
      }
      state := ProfOn;
    }

    /** What the code leaves to its callers: neither table overflows. */
    ghost predicate HasRoom(frompc: Pc, selfpc: Pc)
      requires Valid()
      reads this, froms, tosMem
    {
      && |Record(Contents(), frompc, selfpc).froms| <= froms.Length
      && |Record(Contents(), frompc, selfpc).recs| <= tosMem.Length
      && |Arcs(calls + [(frompc, selfpc)])| <= MAX_TOS
    }

    method Count(frompc: Pc, selfpc: Pc)
      requires Valid()
      requires HasRoom(frompc, selfpc)
      modifies this, froms, tosMem
      ensures Valid() && calls == old(calls) + [(frompc, selfpc)]
      ensures Contents() == Record(old(Contents()), frompc, selfpc)
      ensures state == ProfOn
    {
      hide Inv;
      InvLinked(Contents(), owner, calls);
      ghost var owner' := RecordKeepsInv(Contents(), owner, calls, frompc, selfpc);
      Update(frompc, selfpc);
      ghost var t' := Contents();
      owner, calls := owner', calls + [(frompc, selfpc)];
      assert Contents() == t';
    }
  }

  predicate Covers(p: GmonParam, pc: Pc) {
    p.lowpc <= pc < p.highpc
  }

  ghost predicate FirstCovering(sections: seq<GmonParam>, j: nat, pc: Pc)
    requires j < |sections|
  {
    && sections[j].lowpc <= pc < sections[j].highpc
    && forall i :: 0 <= i < j ==> pc < sections[i].lowpc || sections[i].highpc <= pc
  }

  ghost predicate Separate(sections: seq<GmonParam>) {
    forall i, j :: 0 <= i < j < |sections| ==>
      && sections[i] != sections[j]
      && sections[i].froms != sections[j].froms
      && sections[i].tosMem != sections[j].tosMem
  }

  /** `NullSection`: no section covers the caller, and the code then stores the
      state through the NULL pointer it started with. */
  datatype Outcome = Recorded(section: nat) | NullSection

  method FindSection(sections: seq<GmonParam>, frompc: Pc) returns (j: nat)
    ensures j <= |sections|
    ensures j < |sections| ==> Covers(sections[j], frompc)
    ensures forall i :: 0 <= i < j ==> !Covers(sections[i], frompc)
  {
    j := 0;
    while j < |sections|
      invariant 0 <= j <= |sections|
      invariant forall i :: 0 <= i < j ==> !Covers(sections[i], frompc)
    {
      if Covers(sections[j], frompc) {
        break;
      }
      j := j + 1;
    }
  }

  method Mcount(sections: seq<GmonParam>, frompc: Pc, selfpc: Pc) returns (r: Outcome)
    requires Separate(sections)
    requires forall j :: 0 <= j < |sections| ==> sections[j].Valid()
    requires forall j :: 0 <= j < |sections| && FirstCovering(sections, j, frompc) ==>
      sections[j].HasRoom(frompc, selfpc)
    modifies sections, set p | p in sections :: p.froms, set p | p in sections :: p.tosMem
    ensures r == NullSection <==>
      forall j :: 0 <= j < |sections| ==> frompc < sections[j].lowpc || sections[j].highpc <= frompc
    ensures r.Recorded? ==> (
      && r.section < |sections|
      && sections[r.section].lowpc <= frompc < sections[r.section].highpc
      && forall j :: 0 <= j < r.section ==> frompc < sections[j].lowpc || sections[j].highpc <= frompc)
    ensures forall j :: 0 <= j < |sections| ==>
      sections[j].calls == old(sections[j].calls) + (if r == Recorded(j) then [(frompc, selfpc)] else [])
    ensures forall j :: 0 <= j < |sections| ==> (
      old(sections[j].Valid()) && sections[j].Valid()
      && sections[j].Contents() == if r == Recorded(j)
        then Record(old(sections[j].Contents()), frompc, selfpc)
        else old(sections[j].Contents()))
  {
    hide Inv;
    var j := FindSection(sections, frompc);
    if j == |sections| {
      return NullSection;
    }
    sections[j].Count(frompc, selfpc);
    r := Recorded(j);
  }
}
