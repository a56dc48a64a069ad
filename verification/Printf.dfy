/** The formatter: what a format string means, and the scanner that prints it. */
module Printf {
  import opened Common
  import opened Numerals

  datatype Arg = Num(n: int) | Text(s: string) | Char(c: char)

  /** The `params_t` of a call together with its two flags; `num2` is counted down
      while a text is printed, and may end below 0. */
  datatype Params = Params(num1: nat, num2: int, padChar: char, doPadding: bool, left: bool, dot: bool, long: bool)

  const TEXT_LIMIT := 32767

  /** What is reset for each directive: everything but the width. */
  function Begin(p: Params): Params {
    p.(num2 := TEXT_LIMIT, padChar := ' ', doPadding := false, left := false, dot := false, long := false)
  }

  // ---------- Padding and conversion ----------

  function Repeat(c: char, n: nat): string {
    seq(n, _ => c)
  }

  /** The fill for a text of length `len`. */
  function Fill(p: Params, len: nat): string {
    if p.doPadding && len < p.num1 then Repeat(p.padChar, p.num1 - len) else ""
  }

  /** `body`, padded as for a text of length `len`. */
  function Padded(p: Params, body: string, len: nat): string {
    if p.left then body + Fill(p, len) else Fill(p, len) + body
  }

  function Magnitude(n: int, base: nat): nat {
    if base == 10 && n < 0 then -n else n % 0x1_0000_0000
  }

  /** A 32-bit number as text: signed for base 10, unsigned otherwise. */
  function NumberText(n: int, base: nat): string
    requires base == 10 || base == 16
  {
    (if base == 10 && n < 0 then "-" else "") + Numeral(Magnitude(n, base), base)
  }

  /** The text as far as the limit lets it through; a negative one does not. */
  function Limited(s: string, limit: int): string {
    if 0 <= limit < |s| then s[..limit] else s
  }

  function Converted(p: Params, conv: char, arg: Arg): string {
    match arg
    case Num(n) =>
      var text := NumberText(n, if conv == 'x' then 16 else 10);
      Padded(p, text, |text|)
    case Text(s) => Padded(p, Limited(s, p.num2), |s|)
    case Char(c) => [c]
  }

  // ---------- What a format string means ----------

  function ToLower(c: char): char {
    if 'A' <= c <= 'Z' then (c as int + 32) as char else c
  }

  /** Characters that belong to a directive without ending it. */
  predicate IsFlag(c: char) {
    IsDigit(c) || c == '-' || c == '.' || ToLower(c) == 'l'
  }

  /** The text between the % and the character that ends the directive. */
  function Spec(s: string): (f: string)
    ensures |f| <= |s| && f == s[..|f|] && (|f| < |s| ==> !IsFlag(s[|f|]))
    ensures forall i :: 0 <= i < |f| ==> IsFlag(f[i])
  {
    if s == [] || !IsFlag(s[0]) then [] else [s[0]] + Spec(s[1..])
  }

  /** A directive's text runs to the first character that is no digit, minus, point
      or l. */
  lemma SpecExtent(s: string)
    ensures Spec(s) <= s && forall i :: 0 <= i < |Spec(s)| ==> s[i] in "0123456789-.lL"
    ensures |Spec(s)| < |s| ==> s[|Spec(s)|] !in "0123456789-.lL"
  {
    FlagCharacters();
  }

  lemma FlagCharacters()
    ensures forall c: char :: IsFlag(c) <==> c in "0123456789-.lL"
  {
    forall c: char ensures IsFlag(c) <==> c in "0123456789-.lL" {
      assert '0' <= c <= '9' <==> c in "0123456789";
    }
  }

  /** The digits at the end of s. */
  function TrailingDigits(s: string): (d: string)
    ensures forall i :: 0 <= i < |d| ==> IsDigit(d[i])
  {
    if s == [] || !IsDigit(s[|s| - 1]) then [] else TrailingDigits(s[..|s| - 1]) + [s[|s| - 1]]
  }

  /** The last number written in s. */
  function LastNumber(s: string): Option<nat> {
    if s == [] then None
    else if IsDigit(s[|s| - 1]) then Some(Denotes(TrailingDigits(s), 10))
    else LastNumber(s[..|s| - 1])
  }

  /** Some number in s starts with 0. */
  ghost predicate ZeroFirst(s: string) {
    exists i: nat :: ZeroAt(s, i)
  }

  predicate ZeroAt(s: string, i: nat) {
    i < |s| && s[i] == '0' && (i == 0 || !IsDigit(s[i - 1]))
  }

  /** The part of s before its first point, and the part after it. */
  function BeforeDot(s: string): (b: string)
    ensures |b| <= |s| && b == s[..|b|] && '.' !in b && (|b| < |s| ==> s[|b|] == '.')
  {
    if s == [] || s[0] == '.' then [] else [s[0]] + BeforeDot(s[1..])
  }

  function AfterDot(s: string): string {
    if |BeforeDot(s)| < |s| then s[|BeforeDot(s)| + 1..] else []
  }

  /** The parameters that a directive's text stands for: numbers before a point
      give the width and ask for padding, with zeros if one of them starts with 0;
      numbers after it give the most characters of a text; a minus anywhere turns
      the padding to the right. */
  ghost function Meaning(s: string): Params {
    var width := LastNumber(BeforeDot(s));
    var most := LastNumber(AfterDot(s));
    Params(if width.Some? then width.value else 0,
           if most.Some? then most.value else TEXT_LIMIT,
           if ZeroFirst(BeforeDot(s)) then '0' else ' ',
           width.Some?, '-' in s, '.' in s, 'l' in s || 'L' in s)
  }

  /** Directives that print nothing: those that end in a character without
      meaning.  A backslash and the end of the format are not among them. */
  predicate Silent(conv: char) {
    conv !in "dxsc%\\\0"
  }

  /** Whether a directive takes an argument. */
  predicate Consumes(c: char) {
    c != '%' && !Silent(ToLower(c))
  }

  /** The directive that ends in `c` finds the argument it needs. */
  predicate Matches(c: char, args: seq<Arg>) {
    Consumes(c) ==> (args != [] &&
      match args[0]
      case Num(n) => ToLower(c) in "dx" && -0x8000_0000 <= n < 0x8000_0000
      case Text(_) => ToLower(c) == 's'
      case Char(_) => ToLower(c) == 'c')
  }

  /** What a directive with text `spec` and end character `c` prints. */
  ghost function Piece(p: Params, c: char, args: seq<Arg>): string
    requires Matches(c, args)
  {
    if Consumes(c) then Converted(p, ToLower(c), args[0]) else if c == '%' then "%" else ""
  }

  function Remaining(c: char, args: seq<Arg>): seq<Arg>
    requires Matches(c, args)
  {
    if Consumes(c) then args[1..] else args
  }

  /** Each directive is complete and finds its argument. */
  ghost predicate WellFormed(fmt: string, args: seq<Arg>)
    decreases |fmt|
  {
    fmt != [] ==>
      if fmt[0] != '%' then WellFormed(fmt[1..], args)
      else
        var k := 1 + |Spec(fmt[1..])|;
        k < |fmt| && Matches(fmt[k], args) && WellFormed(fmt[k + 1..], Remaining(fmt[k], args))
  }

  /** The output of a format string: ordinary characters stand for themselves, each
      directive for its converted argument. */
  ghost function Denotation(fmt: string, args: seq<Arg>): string
    requires WellFormed(fmt, args)
    decreases |fmt|
  {
    if fmt == [] then []
    else if fmt[0] != '%' then [fmt[0]] + Denotation(fmt[1..], args)
    else
      var spec := Spec(fmt[1..]);
      var c := fmt[1 + |spec|];
      Piece(Meaning(spec), c, args) + Denotation(fmt[|spec| + 2..], Remaining(c, args))
  }

  // ---------- How meaning grows as a directive is scanned ----------

  lemma {:induction false} NoDot(s: string, t: string)
    requires '.' !in s
    ensures BeforeDot(s + t) == s + BeforeDot(t)
  {
    if s == [] {
      assert s + t == t;
    } else {
      assert (s + t)[1..] == s[1..] + t;
      NoDot(s[1..], t);
    }
  }

  lemma {:induction false} HasDot(s: string, t: string)
    requires '.' in s
    ensures BeforeDot(s + t) == BeforeDot(s) && |BeforeDot(s)| < |s|
  {
    if s[0] != '.' {
      assert (s + t)[1..] == s[1..] + t;
      assert '.' in s[1..];
      HasDot(s[1..], t);
    }
  }

  lemma SplitAtDot(s: string, t: string)
    ensures '.' in s ==> BeforeDot(s + t) == BeforeDot(s) && AfterDot(s + t) == AfterDot(s) + t
    ensures '.' !in s ==> BeforeDot(s + t) == s + BeforeDot(t) && BeforeDot(s) == s && AfterDot(s) == []
    ensures '.' !in s ==> AfterDot(s + t) == AfterDot(t)
  {
    hide BeforeDot;
    if '.' in s {
      HasDot(s, t);
      var n := |BeforeDot(s)| + 1;
      assert (s + t)[n..] == s[n..] + t;
    } else {
      NoDot(s, []);
      NoDot(s, t);
      NothingBefore();
      assert s + [] == s;
      var n := |BeforeDot(t)|;
      assert n < |t| ==> (s + t)[|s| + n + 1..] == t[n + 1..];
    }
  }

  lemma NothingBefore()
    ensures BeforeDot([]) == []
  {}

  lemma NumberUnmoved(s: string, c: char)
    requires !IsDigit(c)
    ensures LastNumber(s + [c]) == LastNumber(s) && (ZeroFirst(s + [c]) <==> ZeroFirst(s))
  {
    assert (s + [c])[..|s|] == s;
    assert forall i: nat :: ZeroAt(s + [c], i) <==> ZeroAt(s, i) || (i == |s| && ZeroAt(s + [c], i));
    assert !ZeroAt(s + [c], |s|);
  }

  ghost predicate Run(d: string) {
    d != [] && forall i :: 0 <= i < |d| ==> IsDigit(d[i])
  }

  ghost predicate EndsInDigit(s: string) {
    s != [] && IsDigit(s[|s| - 1])
  }

  lemma {:induction false} TrailingRun(s: string, d: string)
    requires !EndsInDigit(s) && forall i :: 0 <= i < |d| ==> IsDigit(d[i])
    ensures TrailingDigits(s + d) == d
  {
    if d == [] {
      assert s + d == s;
    } else {
      var n := |d| - 1;
      assert (s + d)[..|s| + n] == s + d[..n];
      TrailingRun(s, d[..n]);
    }
  }

  lemma ZeroMoves(s: string, d: string)
    requires !EndsInDigit(s) && Run(d)
    ensures ZeroFirst(s + d) <==> ZeroFirst(s) || d[0] == '0'
  {
    var t := s + d;
    forall i: nat ensures ZeroAt(t, i) <==> ZeroAt(s, i) || (i == |s| && d[0] == '0') {
      if |s| < i < |t| {
        assert t[i - 1] == d[i - 1 - |s|];
      }
    }
    assert d[0] == '0' ==> ZeroAt(t, |s|);
  }

  lemma NumberMoves(s: string, d: string)
    requires !EndsInDigit(s) && Run(d)
    ensures LastNumber(s + d) == Some(Denotes(d, 10))
    ensures ZeroFirst(s + d) <==> ZeroFirst(s) || d[0] == '0'
  {
    hide Denotes, ZeroFirst;
    TrailingRun(s, d);
    ZeroMoves(s, d);
    assert (s + d)[|s + d| - 1] == d[|d| - 1];
  }

  /** The scanner's reaction to one character that is no digit. */
  function OnFlag(p: Params, c: char): Params {
    if c == '-' then p.(left := true)
    else if c == '.' then p.(dot := true)
    else if c == 'l' || c == 'L' then p.(long := true)
    else p
  }

  function OnNumber(p: Params, d: string): Params
    requires d != []
  {
    if p.dot then p.(num2 := Denotes(d, 10))
    else p.(num1 := Denotes(d, 10), doPadding := true, padChar := if d[0] == '0' then '0' else p.padChar)
  }

  lemma SingleFlag(c: char)
    ensures BeforeDot([c]) == (if c == '.' then [] else [c]) && AfterDot([c]) == []
  {}

  lemma MeaningOnFlag(s: string, c: char)
    requires !IsDigit(c) && IsFlag(c)
    ensures Meaning(s + [c]) == OnFlag(Meaning(s), c)
  {
    hide BeforeDot, AfterDot, LastNumber, ZeroFirst;
    SplitAtDot(s, [c]);
    SingleFlag(c);
    NumberUnmoved(BeforeDot(s), c);
    NumberUnmoved(AfterDot(s), c);
    assert s + [] == s;
  }

  lemma RunParts(d: string)
    requires Run(d)
    ensures '.' !in d && '-' !in d && 'l' !in d && 'L' !in d && BeforeDot(d) == d && AfterDot(d) == []
  {
    SplitAtDot(d, []);
  }

  lemma AfterDotEnd(s: string)
    requires '.' in s && !EndsInDigit(s)
    ensures !EndsInDigit(AfterDot(s))
  {}

  lemma MeaningOnNumber(s: string, d: string)
    requires !EndsInDigit(s) && Run(d)
    ensures Meaning(s + d) == OnNumber(Meaning(s), d)
  {
    hide BeforeDot, AfterDot, LastNumber, ZeroFirst, Denotes;
    SplitAtDot(s, d);
    RunParts(d);
    if '.' in s {
      AfterDotEnd(s);
      NumberMoves(AfterDot(s), d);
    } else {
      NumberMoves(s, d);
    }
  }

  // ---------- The scanner ----------

  lemma SpecReaches(s: string, m: nat)
    requires m <= |s| && forall i :: |Spec(s)| <= i < m ==> IsDigit(s[i])
    ensures m <= |Spec(s)|
  {}

  lemma RunStarts(s: string)
    requires s != [] && IsDigit(s[0])
    ensures LeadingDigits(s) != []
  {}

  /** The leading digits of what is left of a directive are a run of its text. */
  lemma RunInSpec(s: string, k: nat)
    requires k < |Spec(s)| && IsDigit(s[k])
    ensures var d := LeadingDigits(s[k..]);
      Run(d) && k + |d| <= |Spec(s)| && Spec(s)[..k + |d|] == Spec(s)[..k] + d
      && (k + |d| < |s| ==> !IsDigit(s[k + |d|]))
  {
    hide LeadingDigits, Spec;
    var d, f := LeadingDigits(s[k..]), Spec(s);
    RunStarts(s[k..]);
    assert s[k..][0] == s[k];
    forall i | 0 <= i < |d| ensures s[k + i] == d[i] {}
    SpecReaches(s, k + |d|);
    assert f[..k + |d|] == f[..k] + d;
    if k + |d| < |s| {
      assert s[k..][|d|] == s[k + |d|];
    }
  }

  method TakeNumber(fmt: string, at: nat, p: Params) returns (p': Params, after: nat)
    requires at < |fmt| && IsDigit(fmt[at])
    ensures after == at + |LeadingDigits(fmt[at..])|
    ensures LeadingDigits(fmt[at..]) != [] && p' == OnNumber(p, LeadingDigits(fmt[at..]))
  {
    var n;
    n, after := GetNum(fmt, at);
    p' := p;
    if p.dot {
      p' := p'.(num2 := n);
    } else {
      if fmt[at] == '0' {
        p' := p'.(padChar := '0');
      }
      p' := p'.(num1 := n, doPadding := true);
    }
  }

  method TakeFlag(c: char, p: Params) returns (p': Params)
    requires IsFlag(c) && !IsDigit(c)
    ensures p' == OnFlag(p, c)
  {
    match ToLower(c)
    case '-' => p' := p.(left := true);
    case '.' => p' := p.(dot := true);
    case _ => p' := p.(long := true);
  }

  /** What scanning on from position k of the directive's text adds to its meaning. */
  lemma MeaningGrows(s: string, k: nat)
    requires k < |Spec(s)| && (IsDigit(s[k]) ==> !EndsInDigit(Spec(s)[..k]))
    ensures var d := LeadingDigits(s[k..]);
      if IsDigit(s[k]) then
        Run(d) && k + |d| <= |Spec(s)| && Meaning(Spec(s)[..k + |d|]) == OnNumber(Meaning(Spec(s)[..k]), d)
        && (k + |d| < |s| ==> !IsDigit(s[k + |d|]))
      else
        Meaning(Spec(s)[..k + 1]) == OnFlag(Meaning(Spec(s)[..k]), s[k]) && !EndsInDigit(Spec(s)[..k + 1])
  {
    hide Meaning, Denotes;
    var f := Spec(s);
    if IsDigit(s[k]) {
      RunInSpec(s, k);
      MeaningOnNumber(f[..k], LeadingDigits(s[k..]));
    } else {
      MeaningOnFlag(f[..k], s[k]);
      assert f[..k + 1] == f[..k] + [s[k]];
    }
  }

  /** The parameters m, but with the width left over from before when m has none. */
  function Over(m: Params, width: nat): Params {
    if m.doPadding then m else m.(num1 := width)
  }

  lemma OverGrows(m: Params, width: nat)
    ensures forall c :: OnFlag(Over(m, width), c) == Over(OnFlag(m, c), width)
    ensures forall d: string :: d != [] ==> OnNumber(Over(m, width), d) == Over(OnNumber(m, d), width)
  {
    hide Denotes;
  }

  /** A width left over from an earlier directive changes nothing of what this one
      prints. */
  lemma NoLeak(m: Params, width: nat, c: char, args: seq<Arg>)
    requires Matches(c, args)
    ensures Piece(Over(m, width), c, args) == Piece(m, c, args)
  {
    hide NumberText, Matches;
  }

  /** The loop around `try_next`: from behind the % up to the character that ends
      the directive, at position `ctrl` of `line`.  The parameters start as what
      the directive before left of them. */
  method ScanDirective(line: string, before: Params) returns (p: Params, ctrl: nat)
    requires |Spec(line)| < |line|
    ensures ctrl == |Spec(line)| && p == Over(Meaning(Spec(line)), before.num1)
  {
    hide Meaning, Denotes, OnNumber, OnFlag, LeadingDigits, Over;
    ghost var spec := Spec(line);
    p := Begin(before);
    FreshMeaning(before);
    ctrl := 0;
    while IsFlag(line[ctrl])
      invariant 0 <= ctrl <= |spec|
      invariant p == Over(Meaning(spec[..ctrl]), before.num1)
      invariant IsDigit(line[ctrl]) ==> !EndsInDigit(spec[..ctrl])
      decreases |line| - ctrl
    {
      MeaningGrows(line, ctrl);
      OverGrows(Meaning(spec[..ctrl]), before.num1);
      if IsDigit(line[ctrl]) {
        p, ctrl := TakeNumber(line, ctrl, p);
        ctrl := ctrl - 1;
      } else {
        p := TakeFlag(line[ctrl], p);
      }
      ctrl := ctrl + 1;
    }
    assert spec[..|spec|] == spec;
  }

  lemma FreshMeaning(before: Params)
    ensures Begin(before) == Over(Meaning([]), before.num1)
  {}

  // ---------- Output ----------

  method Padding(flag: bool, p: Params, len: nat) returns (out: string)
    ensures out == if flag then Fill(p, len) else []
  {
    out := [];
    if p.doPadding && flag && len < p.num1 {
      for i := len to p.num1
        invariant out == Repeat(p.padChar, i - len)
      {
        out := out + [p.padChar];
      }
    }
  }

  method OutS(text: string, p: Params) returns (out: string, p': Params)
    ensures out == Padded(p, Limited(text, p.num2), |text|)
    ensures p' == p.(num2 := p'.num2)
  {
    hide Fill;
    out := Padding(!p.left, p, |text|);
    p' := p;
    ghost var fill := out;
    var lp := 0;
    while lp < |text| && p'.num2 != 0
      invariant 0 <= lp <= |text| && p' == p.(num2 := p.num2 - lp)
      invariant p.num2 >= 0 ==> p'.num2 >= 0
      invariant out == fill + text[..lp]
    {
      p' := p'.(num2 := p'.num2 - 1);
      out := out + [text[lp]];
      lp := lp + 1;
    }
    if lp < |text| {
      p' := p'.(num2 := p'.num2 - 1);
    }
    var rest := Padding(p'.left, p', |text|);
    assert text[..|text|] == text;
    FillKeeps(p, p'.num2, |text|);
    out := out + rest;
  }

  lemma FillKeeps(p: Params, num2: int, len: nat)
    ensures Fill(p.(num2 := num2), len) == Fill(p, len)
  {}

  function Reversed(s: seq<char>): (r: seq<char>)
    ensures |r| == |s|
  {
    if s == [] then [] else Reversed(s[1..]) + [s[0]]
  }

  lemma {:induction false} ReversedAppend(s: seq<char>, c: char)
    ensures Reversed(s + [c]) == [c] + Reversed(s)
  {
    if s != [] {
      assert (s + [c])[1..] == s[1..] + [c];
      ReversedAppend(s[1..], c);
    } else {
      assert Reversed([c]) == [c];
    }
  }

  /** The digit loop of `outnum`: least significant digit first, and always inside
      the buffer of 32 characters, with room for a sign and the end mark. */
  method PutDigits(outbuf: array<char>, num: nat, base: nat) returns (cp: nat)
    requires outbuf.Length == OUTBUF && num < 0x1_0000_0000 && (base == 10 || base == 16)
    modifies outbuf
    ensures 0 < cp <= 10 && Reversed(outbuf[..cp]) == Numeral(num, base)
  {
    hide Numeral, DigitOf, Pow10, Front, Reversed;
    AtMostTen(num, base);
    ghost var text := Numeral(num, base);
    NumeralStep(num, base);
    outbuf[0] := DigitOf(num % base);
    cp := 1;
    var rest: nat := num / base;
    assert outbuf[..1] == [DigitOf(num % base)];
    ReversedOne(DigitOf(num % base));
    while rest > 0
      invariant 0 < cp <= |text|
      invariant text == Front(rest, base) + Reversed(outbuf[..cp])
      decreases rest
    {
      NumeralStep(rest, base);
      PushDigit(text, Front(rest / base, base), DigitOf(rest % base), outbuf[..cp]);
      PutChar(outbuf, cp, DigitOf(rest % base));
      cp := cp + 1;
      rest := rest / base;
    }
    FrontDone(base);
  }

  method PutChar(outbuf: array<char>, at: nat, c: char)
    requires at < outbuf.Length
    modifies outbuf
    ensures outbuf[..at + 1] == old(outbuf[..at]) + [c]
  {
    outbuf[at] := c;
  }

  lemma ReversedOne(c: char)
    ensures Reversed([c]) == [c]
  {}

  lemma AtMostTen(num: nat, base: nat)
    requires num < 0x1_0000_0000 && (base == 10 || base == 16)
    ensures |Numeral(num, base)| <= 10
  {
    NumeralShort(num, base, 10);
  }

  /** The digits of `rest` that are still to come. */
  ghost function Front(rest: nat, base: nat): string
    requires 2 <= base <= 16
  {
    if rest > 0 then Numeral(rest, base) else []
  }

  lemma NumeralStep(n: nat, base: nat)
    requires 2 <= base <= 16
    ensures Numeral(n, base) == Front(n / base, base) + [DigitOf(n % base)] && 0 <= n % base < base
    ensures n > 0 ==> Front(n, base) == Numeral(n, base)
    ensures n > 0 ==> n / base < n
  {
    hide DigitOf;
    Recompose(n, base);
    QuotientLess(n, base);
    if n >= base {
      QuotientPositive(n, base);
    } else {
      SmallDivision(n, base);
    }
  }

  lemma QuotientLess(n: nat, base: nat)
    requires base >= 2
    ensures n > 0 ==> n / base < n
  {
    var q := n / base;
    Twice(q, base);
    Recompose(n, base);
  }

  lemma Twice(q: nat, base: nat)
    requires base >= 2
    ensures q * base >= 2 * q
  {}

  /** One more digit in the buffer, one fewer to come. */
  lemma PushDigit(text: string, front: string, c: char, before: seq<char>)
    requires text == front + [c] + Reversed(before)
    ensures text == front + Reversed(before + [c]) && |before| < |text|
  {
    hide Reversed;
    ReversedAppend(before, c);
    Associate(front, [c], Reversed(before));
  }

  lemma FrontDone(base: nat)
    requires 2 <= base <= 16
    ensures Front(0, base) == []
  {}

  lemma SmallDivision(n: nat, base: nat)
    requires n < base
    ensures n / base == 0 && n % base == n
  {}

  method OutNum(n: int, base: nat, p: Params) returns (out: string)
    requires -0x8000_0000 <= n < 0x8000_0000 && (base == 10 || base == 16)
    ensures out == Padded(p, NumberText(n, base), |NumberText(n, base)|)
  {
    hide Numeral, Fill, Reversed;
    var outbuf := new char[OUTBUF];
    var negative := base == 10 && n < 0;
    var num := if negative then -n else n % 0x1_0000_0000;
    var cp := PutDigits(outbuf, num, base);
    if negative {
      cp := PutSign(outbuf, cp);
    }
    outbuf[cp] := '\0';
    ghost var text := NumberText(n, base);
    assert Reversed(outbuf[..cp]) == text;
    ReversedMembers(outbuf[..cp]);
    NoEndMark(num, base);
    var len := StrLen(outbuf, cp);
    out := Padding(!p.left, p, len);
    var body := Backwards(outbuf, cp);
    var rest := Padding(p.left, p, len);
    out := out + body + rest;
  }

  method PutSign(outbuf: array<char>, at: nat) returns (cp: nat)
    requires at < outbuf.Length
    modifies outbuf
    ensures cp == at + 1 && Reversed(outbuf[..cp]) == "-" + old(Reversed(outbuf[..at]))
  {
    ReversedAppend(outbuf[..at], '-');
    PutChar(outbuf, at, '-');
    cp := at + 1;
  }

  lemma {:induction false} ReversedMembers(s: seq<char>)
    ensures forall c :: c in Reversed(s) <==> c in s
  {
    if s != [] {
      ReversedMembers(s[1..]);
    }
  }

  lemma {:induction false} NoEndMark(n: nat, base: nat)
    requires 2 <= base <= 16
    ensures '\0' !in Numeral(n, base)
    decreases n
  {
    hide DigitOf;
    QuotientLess(n, base);
    DigitBack(n % base);
    if n >= base {
      NoEndMark(n / base, base);
    } else {
      DigitBack(n);
    }
  }

  /** `strlen`: the position of the first end mark. */
  method StrLen(buf: array<char>, ghost end: nat) returns (n: nat)
    requires end < buf.Length && buf[end] == '\0' && '\0' !in buf[..end]
    ensures n == end
  {
    n := 0;
    while buf[n] != '\0'
      invariant n <= end
      decreases end - n
    {
      n := n + 1;
    }
  }

  /** The output loop of `outnum`. */
  method Backwards(outbuf: array<char>, n: nat) returns (out: string)
    requires n <= outbuf.Length
    ensures out == Reversed(outbuf[..n])
  {
    out := [];
    var cp := n - 1;
    while cp >= 0
      invariant -1 <= cp < n
      invariant Reversed(outbuf[..n]) == out + Reversed(outbuf[..cp + 1])
    {
      assert outbuf[..cp + 1] == outbuf[..cp] + [outbuf[cp]];
      ReversedAppend(outbuf[..cp], outbuf[cp]);
      out := out + [outbuf[cp]];
      cp := cp - 1;
    }
  }

  /** The switch over the character that ends a directive; also gives what is left
      of the parameters. */
  method Convert(p: Params, ch: char, args: seq<Arg>) returns (out: string, rest: seq<Arg>, p': Params)
    requires Matches(ch, args)
    ensures out == Piece(p, ch, args) && rest == Remaining(ch, args) && p' == p.(num2 := p'.num2)
  {
    p' := p;
    if !Consumes(ch) {
      return if ch == '%' then "%" else "", args, p;
    }
    rest := args[1..];
    match args[0]
    case Num(n) => out := OutNum(n, if ToLower(ch) == 'x' then 16 else 10, p);
    case Text(t) => out, p' := OutS(t, p);
    case Char(c) => out := [c];
  }

  lemma PlainStep(line: string, args: seq<Arg>)
    requires line != [] && line[0] != '%' && WellFormed(line, args)
    ensures WellFormed(line[1..], args) && Denotation(line, args) == [line[0]] + Denotation(line[1..], args)
  {}

  lemma DirectiveStep(line: string, args: seq<Arg>)
    requires line != [] && line[0] == '%' && WellFormed(line, args)
    ensures var spec := Spec(line[1..]);
      var k := 1 + |spec|;
      && k < |line| && Matches(line[k], args)
      && WellFormed(line[k + 1..], Remaining(line[k], args))
      && Denotation(line, args) ==
           Piece(Meaning(spec), line[k], args) + Denotation(line[k + 1..], Remaining(line[k], args))
  {
    hide Spec, Matches, Piece, Remaining, Meaning;
  }

  /** `xil_printf` prints what the format string denotes, whatever its parameters
      hold at first: the code does not initialise them. */
  method XilPrintf(fmt: string, args: seq<Arg>, par: Params) returns (out: string)
    requires WellFormed(fmt, args)
    ensures out == Denotation(fmt, args)
  {
    hide Meaning, Piece, Remaining, Matches, WellFormed, Denotation, Spec, Over;
    out := [];
    var ctrl, left, cur := fmt, args, par;
    while ctrl != []
      invariant WellFormed(ctrl, left)
      invariant Denotation(fmt, args) == out + Denotation(ctrl, left)
      decreases |ctrl|
    {
      if ctrl[0] != '%' {
        PlainStep(ctrl, left);
        out := out + [ctrl[0]];
        ctrl := ctrl[1..];
      } else {
        DirectiveStep(ctrl, left);
        var p, k := ScanDirective(ctrl[1..], cur);
        NoLeak(Meaning(Spec(ctrl[1..])), cur.num1, ctrl[1 + k], left);
        var text, rest, after := Convert(p, ctrl[1 + k], left);
        out := out + text;
        ctrl, left, cur := ctrl[k + 2..], rest, after;
      }
    }
    NothingLeft(left);
  }

  lemma NothingLeft(args: seq<Arg>)
    ensures WellFormed([], args) && Denotation([], args) == []
  {}

  /** The text of a 32-bit number denotes it, signed in base 10 and unsigned in
      base 16, has no leading zero, and fits the buffer with its end mark. */
  lemma NumberTextExact(n: int, base: nat)
    requires -0x8000_0000 <= n < 0x8000_0000 && (base == 10 || base == 16)
    ensures var text := NumberText(n, base);
      && 0 < |text| < 32
      && (base == 10 && n < 0 ==> text[0] == '-' && Denotes(text[1..], 10) == -n && text[1] != '0')
      && (base == 10 && n >= 0 ==> Denotes(text, 10) == n && (n > 0 ==> text[0] != '0'))
      && (base == 16 ==> Denotes(text, 16) == n % 0x1_0000_0000 && (n != 0 ==> text[0] != '0'))
  {
    hide Numeral, Denotes, DigitOf, IsDigit;
    var m := Magnitude(n, base);
    NumeralDenotes(m, base);
    AtMostTen(m, base);
    var s := Numeral(m, base);
    assert [] + s == s && ("-" + s)[1..] == s;
  }

  // ---------- Against the standard ----------

  /** The digits of n in base 16 as standard printf writes them for %x. */
  function LowerNumeral(n: nat): (s: string)
    ensures |s| > 0
    decreases n
  {
    if n < 16 then ["0123456789abcdef"[n]] else LowerNumeral(n / 16) + ["0123456789abcdef"[n % 16]]
  }

  function BaseOf(conv: char): nat { if ToLower(conv) == 'x' then 16 else 10 }

  function StandardDigits(m: nat, conv: char): (s: string)
    ensures |s| > 0
  {
    if conv == 'x' then LowerNumeral(m) else Numeral(m, BaseOf(conv))
  }

  /** The precision: the number after the point, 0 if there is none, and not given
      without a point. */
  function Precision(spec: string): Option<nat> {
    if '.' !in spec then None
    else if LastNumber(AfterDot(spec)).Some? then LastNumber(AfterDot(spec)) else Some(0)
  }

  /** The digits with zeros up to the precision; precision 0 leaves nothing of a 0. */
  function Precise(digits: string, prec: Option<nat>): string {
    if prec == None then digits
    else if prec == Some(0) && digits == "0" then ""
    else if |digits| < prec.value then Repeat('0', prec.value - |digits|) + digits
    else digits
  }

  /** A number laid out as standard printf does: a minus flag overrides a 0 flag,
      which a precision overrides too, and zeros go between sign and digits. */
  function Laid(sign: string, digits: string, width: nat, zero: bool, left: bool, prec: Option<nat>): string {
    var body := Precise(digits, prec);
    var gap := if |sign| + |body| < width then width - |sign| - |body| else 0;
    if left then sign + body + Repeat(' ', gap)
    else if zero && prec == None then sign + Repeat('0', gap) + body
    else Repeat(' ', gap) + sign + body
  }

  function SignOf(n: int, conv: char): string { if conv == 'd' && n < 0 then "-" else "" }

  /** What standard printf prints for the directive with text `spec` that ends in
      `conv`. */
  ghost function Standard(spec: string, conv: char, n: int): string {
    var width := LastNumber(BeforeDot(spec));
    Laid(SignOf(n, conv), StandardDigits(Magnitude(n, BaseOf(conv)), conv), if width.Some? then width.value else 0,
         ZeroFirst(BeforeDot(spec)), '-' in spec, Precision(spec))
  }

  predicate IsCapital(c: char) { 'A' <= c <= 'F' }

  ghost predicate HasCapital(s: string) {
    exists i :: 0 <= i < |s| && IsCapital(s[i])
  }

  /** The layouts agree: without a precision, when nothing has to be filled, or with
      spaces, or with zeros in front of a number without a sign; with one that the
      digits reach, when that leaves them as they are and nothing has to be filled
      but with spaces; with one beyond the digits, when zeros fill a width that is
      the precision, in front of a number without a sign or beside a 0. */
  predicate SameLayout(sign: string, digits: string, width: nat, zero: bool, left: bool, prec: Option<nat>) {
    var fits := |sign| + |digits| >= width;
    match prec
    case None => fits || !zero || (!left && sign == "")
    case Some(k) =>
      if k > |digits| then zero && width == k && sign == "" && (!left || digits == "0")
      else (k > 0 || digits != "0") && (fits || !zero)
  }

  /** The formatter's own layout: the fill goes around sign and digits. */
  function Plain(sign: string, digits: string, width: nat, zero: bool, left: bool): string {
    var gap := if |sign| + |digits| < width then width - |sign| - |digits| else 0;
    var fill := Repeat(if zero then '0' else ' ', gap);
    if left then sign + digits + fill else fill + sign + digits
  }

  ghost predicate Proper(sign: string, digits: string) {
    && digits != "" && (digits[0] == '0' ==> digits == "0")
    && (sign == "" || (sign == "-" && digits[0] != '0'))
    && forall i :: 0 <= i < |digits| ==> digits[i] != '-' && digits[i] != ' '
  }

  lemma LayoutNoPrecision(sign: string, digits: string, width: nat, zero: bool, left: bool)
    requires Proper(sign, digits)
    ensures Plain(sign, digits, width, zero, left) == Laid(sign, digits, width, zero, left, None)
      <==> SameLayout(sign, digits, width, zero, left, None)
  {
    var n := |sign| + |digits|;
    if n < width && zero {
      var ours, std := Plain(sign, digits, width, zero, left), Laid(sign, digits, width, zero, left, None);
      if left {
        assert ours[n] == '0' && std[n] == ' ';
      } else if sign == "-" {
        assert ours[0] == '0' && std[0] == '-';
      }
    }
  }

  /** The precision does not reach beyond the digits. */
  lemma LayoutReached(sign: string, digits: string, width: nat, zero: bool, left: bool, k: nat)
    requires Proper(sign, digits) && k <= |digits|
    ensures Plain(sign, digits, width, zero, left) == Laid(sign, digits, width, zero, left, Some(k))
      <==> SameLayout(sign, digits, width, zero, left, Some(k))
  {
    var ours, std := Plain(sign, digits, width, zero, left), Laid(sign, digits, width, zero, left, Some(k));
    var n := |sign| + |digits|;
    if k == 0 && digits == "0" {
      assert '0' in ours;
      assert '0' !in std;
    } else if n < width && zero {
      if left {
        assert ours[n] == '0' && std[n] == ' ';
      } else {
        assert ours[0] == '0' && std[0] == ' ';
      }
    }
  }

  /** The precision asks for zeros in front of the digits. */
  lemma LayoutBeyond(sign: string, digits: string, width: nat, zero: bool, left: bool, k: nat)
    requires Proper(sign, digits) && k > |digits|
    ensures Plain(sign, digits, width, zero, left) == Laid(sign, digits, width, zero, left, Some(k))
      <==> SameLayout(sign, digits, width, zero, left, Some(k))
  {
    var ours, std := Plain(sign, digits, width, zero, left), Laid(sign, digits, width, zero, left, Some(k));
    var z := k - |digits|;
    assert |std| == if |sign| + k < width then width else |sign| + k;
    if width < |sign| + k {
      assert |ours| < |std|;
    } else if left {
      BeyondLeft(sign, digits, width, zero, k);
    } else {
      BeyondRight(sign, digits, width, zero, k);
    }
  }

  lemma BeyondLeft(sign: string, digits: string, width: nat, zero: bool, k: nat)
    requires Proper(sign, digits) && |digits| < k && |sign| + k <= width
    ensures Plain(sign, digits, width, zero, true) == Laid(sign, digits, width, zero, true, Some(k))
      <==> zero && width == k && sign == "" && digits == "0"
  {
    var ours, std := Plain(sign, digits, width, zero, true), Laid(sign, digits, width, zero, true, Some(k));
    assert ours[|sign|] == digits[0] && std[|sign|] == '0';
    if digits == "0" {
      assert ours[|sign| + 1] == (if zero then '0' else ' ') && std[|sign| + 1] == '0';
      if |sign| + k < width {
        assert ours[width - 1] == (if zero then '0' else ' ') && std[width - 1] == ' ';
      }
    }
  }

  lemma BeyondRight(sign: string, digits: string, width: nat, zero: bool, k: nat)
    requires Proper(sign, digits) && |digits| < k && |sign| + k <= width
    ensures Plain(sign, digits, width, zero, false) == Laid(sign, digits, width, zero, false, Some(k))
      <==> zero && width == k && sign == ""
  {
    var ours, std := Plain(sign, digits, width, zero, false), Laid(sign, digits, width, zero, false, Some(k));
    var c, at := if zero then '0' else ' ', width - |sign| - k;
    assert ours[at] == c && std[at] == if sign == "-" then '-' else '0';
    if at > 0 {
      assert ours[0] == c && std[0] == ' ';
    }
  }

  lemma LayoutExactly(sign: string, digits: string, width: nat, zero: bool, left: bool, prec: Option<nat>)
    requires Proper(sign, digits)
    ensures Plain(sign, digits, width, zero, left) == Laid(sign, digits, width, zero, left, prec)
      <==> SameLayout(sign, digits, width, zero, left, prec)
  {
    hide Plain, Laid, SameLayout, Proper;
    match prec {
      case None => LayoutNoPrecision(sign, digits, width, zero, left);
      case Some(k) =>
        if k > |digits| {
          LayoutBeyond(sign, digits, width, zero, left, k);
        } else {
          LayoutReached(sign, digits, width, zero, left, k);
        }
    }
  }

  // The two alphabets.

  lemma {:induction false} LowerExactly(n: nat)
    ensures |LowerNumeral(n)| == |Numeral(n, 16)| && !HasCapital(LowerNumeral(n))
    ensures LowerNumeral(n) == Numeral(n, 16) <==> !HasCapital(Numeral(n, 16))
    decreases n
  {
    if n >= 16 {
      LowerExactly(n / 16);
      var s, t := Numeral(n / 16, 16), LowerNumeral(n / 16);
      var c, d := DigitOf(n % 16), "0123456789abcdef"[n % 16];
      LastCapital(s, c);
      LastCapital(t, d);
      assert (s + [c])[..|s|] == s && (t + [d])[..|t|] == t;
      assert (s + [c])[|s|] == c && (t + [d])[|t|] == d;
    } else {
      LastCapital([], DigitOf(n));
      LastCapital([], "0123456789abcdef"[n]);
      assert [] + [DigitOf(n)] == Numeral(n, 16) && [] + ["0123456789abcdef"[n]] == LowerNumeral(n);
    }
  }

  lemma LastCapital(s: string, c: char)
    ensures HasCapital(s + [c]) <==> HasCapital(s) || IsCapital(c)
  {
    if HasCapital(s) {
      var i :| 0 <= i < |s| && IsCapital(s[i]);
      assert IsCapital((s + [c])[i]);
    }
    assert IsCapital((s + [c])[|s|]) <==> IsCapital(c);
    if HasCapital(s + [c]) {
      var i :| 0 <= i < |s + [c]| && IsCapital((s + [c])[i]);
      assert i < |s| ==> IsCapital(s[i]);
    }
  }

  lemma CapitalsApart(sign: string, ours: string, std: string, width: nat, zero: bool, left: bool, prec: Option<nat>)
    requires (sign == "" || sign == "-") && HasCapital(ours) && !HasCapital(std)
    ensures Plain(sign, ours, width, zero, left) != Laid(sign, std, width, zero, left, prec)
  {
    var i :| 0 <= i < |ours| && IsCapital(ours[i]);
    assert ours[i] in Plain(sign, ours, width, zero, left);
    assert forall j :: 0 <= j < |std| ==> std[j] != ours[i];
    assert ours[i] !in Precise(std, prec);
    assert ours[i] !in Laid(sign, std, width, zero, left, prec);
  }

  lemma {:induction false} DigitsProper(n: nat, base: nat)
    requires base == 10 || base == 16
    ensures Numeral(n, base)[0] == '0' ==> Numeral(n, base) == "0" && n == 0
    ensures forall i :: 0 <= i < |Numeral(n, base)| ==> Numeral(n, base)[i] != '-' && Numeral(n, base)[i] != ' '
    decreases n
  {
    NumeralDenotes(n, base);
    hide Denotes;
    if n >= base {
      DigitsProper(n / base, base);
    }
  }

  /** The formatter prints a number as the standard does exactly when it has no hex
      letter to print in lower case and the layouts agree; for every directive. */
  lemma StandardExactly(spec: string, conv: char, n: int)
    requires conv in "dxX" && -0x8000_0000 <= n < 0x8000_0000
    ensures var p, digits := Meaning(spec), Numeral(Magnitude(n, BaseOf(conv)), BaseOf(conv));
      Piece(p, conv, [Num(n)]) == Standard(spec, conv, n) <==>
        && !(conv == 'x' && HasCapital(digits))
        && SameLayout(SignOf(n, conv), digits, p.num1, p.padChar == '0', p.left, Precision(spec))
  {
    hide LastNumber, BeforeDot, AfterDot, ZeroFirst, Precision, Numeral, LowerNumeral, Laid, SameLayout, HasCapital,
      IsCapital;
    var p, m, base := Meaning(spec), Magnitude(n, BaseOf(conv)), BaseOf(conv);
    var sign, digits := SignOf(n, conv), Numeral(m, base);
    DigitsProper(m, base);
    PieceIsPlain(spec, conv, n);
    LayoutExactly(sign, digits, p.num1, p.padChar == '0', p.left, Precision(spec));
    if conv == 'x' {
      LowerExactly(m);
      if HasCapital(digits) {
        CapitalsApart(sign, digits, LowerNumeral(m), p.num1, p.padChar == '0', p.left, Precision(spec));
      }
    }
  }

  lemma PieceIsPlain(spec: string, conv: char, n: int)
    requires conv in "dxX" && -0x8000_0000 <= n < 0x8000_0000
    ensures var p := Meaning(spec);
      Piece(p, conv, [Num(n)]) ==
        Plain(SignOf(n, conv), Numeral(Magnitude(n, BaseOf(conv)), BaseOf(conv)), p.num1, p.padChar == '0', p.left)
  {
    hide LastNumber, BeforeDot, AfterDot, ZeroFirst, Numeral;
    var p, digits := Meaning(spec), Numeral(Magnitude(n, BaseOf(conv)), BaseOf(conv));
    var sign := SignOf(n, conv);
    var fill := Fill(p, |sign + digits|);
    assert fill + (sign + digits) == fill + sign + digits;
    assert NumberText(n, BaseOf(conv)) == sign + digits;
  }

  // Texts and characters.

  /** `body` with the fill for a text of length `full`. */
  function Aligned(body: string, full: nat, width: nat, zero: bool, left: bool): string {
    var fill := Repeat(if zero then '0' else ' ', if full < width then width - full else 0);
    if left then body + fill else fill + body
  }

  /** What standard printf prints for a text: cut to the precision, then filled with
      spaces. */
  ghost function StandardText(spec: string, s: string): string {
    var width, prec := LastNumber(BeforeDot(spec)), Precision(spec);
    var body := if prec.Some? && prec.value < |s| then s[..prec.value] else s;
    Aligned(body, |body|, if width.Some? then width.value else 0, false, '-' in spec)
  }

  predicate AllSpaces(s: string) {
    forall i :: 0 <= i < |s| ==> s[i] == ' '
  }

  lemma AlignedAlike(body: string, full: nat, width: nat, zero: bool, left: bool)
    requires |body| <= full
    ensures Aligned(body, full, width, zero, left) == Aligned(body, |body|, width, false, left)
      <==> width <= |body| || (|body| == full && !zero)
  {
    var ours, std := Aligned(body, full, width, zero, left), Aligned(body, |body|, width, false, left);
    if |body| == full < width && zero {
      if left {
        assert ours[full] == '0' && std[full] == ' ';
      } else {
        assert ours[0] == '0' && std[0] == ' ';
      }
    }
  }

  lemma AlignedSpaces(body: string, full: nat, width: nat, zero: bool, left: bool)
    requires |body| <= full
    ensures Aligned(body, full, width, zero, left) == Repeat(' ', width)
      <==> AllSpaces(body) && (if width > full then |body| == full && !zero else |body| == width)
  {
    var ours := Aligned(body, full, width, zero, left);
    if |ours| == width {
      var at := if left then 0 else width - |body|;
      assert forall i :: 0 <= i < |body| ==> ours[at + i] == body[i];
      assert full < width ==> ours[if left then |body| else 0] == if zero then '0' else ' ';
    }
  }

  /** The formatter's text agrees with the standard: where the point has no number
      after it the standard prints none of the text; a longer text than 32767 is cut
      without being asked; otherwise nothing has to be filled, or the text is not cut
      and filled with spaces. */
  ghost predicate SameText(spec: string, s: string) {
    var p := Meaning(spec);
    var prec, zero := Precision(spec), p.padChar == '0';
    if '.' in spec && LastNumber(AfterDot(spec)) == None && s != "" then
      var body := if 32767 < |s| then s[..32767] else s;
      AllSpaces(body) && if p.num1 > |s| then |body| == |s| && !zero else |body| == p.num1
    else
      var n := if prec.Some? && prec.value < |s| then prec.value else |s|;
      && (prec == None ==> |s| <= 32767)
      && (p.num1 <= n || (n == |s| && !zero))
  }

  /** The formatter prints a text as the standard does exactly in these cases. */
  lemma TextExactly(spec: string, s: string)
    ensures Piece(Meaning(spec), 's', [Text(s)]) == StandardText(spec, s) <==> SameText(spec, s)
  {
    hide LastNumber, BeforeDot, AfterDot, ZeroFirst;
    var p, prec := Meaning(spec), Precision(spec);
    var ours := Limited(s, p.num2);
    NoDotNoNumber(spec);
    assert Piece(p, 's', [Text(s)]) == Aligned(ours, |s|, p.num1, p.padChar == '0', p.left);
    hide Aligned;
    if '.' in spec && LastNumber(AfterDot(spec)) == None && s != "" {
      AlignedSpaces(ours, |s|, p.num1, p.padChar == '0', p.left);
      AlignedSpaces("", 0, p.num1, false, p.left);
    } else if prec == None && |s| > 32767 {
      TooLong(s, p.num1, p.padChar == '0', p.left);
    } else {
      AlignedAlike(ours, |s|, p.num1, p.padChar == '0', p.left);
    }
  }

  lemma NoDotNoNumber(spec: string)
    ensures '.' !in spec ==> AfterDot(spec) == [] && LastNumber(AfterDot(spec)) == None
  {
    SplitAtDot(spec, []);
  }

  lemma TooLong(s: string, width: nat, zero: bool, left: bool)
    requires |s| > 32767
    ensures Aligned(s[..32767], |s|, width, zero, left) != Aligned(s, |s|, width, false, left)
  {
    assert |Aligned(s[..32767], |s|, width, zero, left)| < |Aligned(s, |s|, width, false, left)|;
  }

  /** A character is printed alone, which is the standard's text exactly for a width
      of at most one; a percent sign stands for itself; and a character without
      meaning ends a directive that prints nothing. */
  lemma CharExactly(spec: string, c: char, conv: char, args: seq<Arg>)
    ensures var p := Meaning(spec);
      Piece(p, 'c', [Char(c)]) == [c] && ([c] == Aligned([c], 1, p.num1, false, p.left) <==> p.num1 <= 1)
    ensures Piece(Meaning(spec), '%', args) == "%" && Remaining('%', args) == args
    ensures forall a: Arg ::
      && (Matches('D', [a]) ==> Piece(Meaning(spec), 'D', [a]) == Piece(Meaning(spec), 'd', [a]))
      && (Matches('S', [a]) ==> Piece(Meaning(spec), 'S', [a]) == Piece(Meaning(spec), 's', [a]))
      && (Matches('C', [a]) ==> Piece(Meaning(spec), 'C', [a]) == Piece(Meaning(spec), 'c', [a]))
    ensures conv !in "dDxXsScC%\\\0" ==>
      Matches(conv, args) && Piece(Meaning(spec), conv, args) == "" && Remaining(conv, args) == args
  {
    hide Meaning;
    var p := Meaning(spec);
    assert p.num1 > 1 ==> |Aligned([c], 1, p.num1, false, p.left)| == p.num1;
    assert p.num1 <= 1 ==> Aligned([c], 1, p.num1, false, p.left) == [c];
  }

  /** Three directives that print something else: a letter, a precision, a sign. */
  lemma StandardDiffers()
    ensures Piece(Meaning(""), 'x', [Num(171)]) == "AB" && Standard("", 'x', 171) == "ab"
    ensures Piece(Meaning(".3"), 'd', [Num(5)]) == "5" && Standard(".3", 'd', 5) == "005"
    ensures Piece(Meaning("05"), 'd', [Num(-42)]) == "00-42" && Standard("05", 'd', -42) == "-0042"
  {
    HexWitness();
    PrecisionWitness();
    SignWitness();
  }

  lemma HexWitness()
    ensures Piece(Meaning(""), 'x', [Num(171)]) == "AB" && Standard("", 'x', 171) == "ab"
  {
    PieceIsPlain("", 'x', 171);
    assert Numeral(10, 16) == "A" && LowerNumeral(10) == "a";
    assert Numeral(171, 16) == "AB" && LowerNumeral(171) == "ab";
  }

  lemma PrecisionWitness()
    ensures Piece(Meaning(".3"), 'd', [Num(5)]) == "5" && Standard(".3", 'd', 5) == "005"
  {
    hide Meaning, Numeral, Plain, Laid, Precision, BeforeDot, LastNumber, ZeroFirst;
    PointThree();
    Five();
    PieceIsPlain(".3", 'd', 5);
    ThreeLaidOut();
  }

  lemma Five()
    ensures Numeral(5, 10) == "5"
  {}

  lemma PointThree()
    ensures var p := Meaning(".3");
      p.num1 == 0 && p.padChar == ' ' && !p.left && Precision(".3") == Some(3)
    ensures LastNumber(BeforeDot(".3")) == None && !ZeroFirst(BeforeDot(".3"))
  {
    assert BeforeDot(".3") == [] && AfterDot(".3") == "3";
    assert Run("3") && [] + "3" == "3";
    NumberMoves([], "3");
    assert Denotes("3", 10) == 3;
  }

  lemma ThreeLaidOut()
    ensures Plain("", "5", 0, false, false) == "5"
    ensures Laid("", "5", 0, false, false, Some(3)) == "005"
  {
    assert Repeat('0', 2) == "00";
  }

  lemma SignWitness()
    ensures Piece(Meaning("05"), 'd', [Num(-42)]) == "00-42" && Standard("05", 'd', -42) == "-0042"
  {
    hide Meaning, Numeral, Plain, Laid, Precision, BeforeDot, LastNumber, ZeroFirst;
    ZeroFive();
    FortyTwo();
    PieceIsPlain("05", 'd', -42);
    LaidOut();
  }

  lemma ZeroFive()
    ensures var p := Meaning("05");
      p.num1 == 5 && p.padChar == '0' && !p.left && Precision("05") == None
    ensures LastNumber(BeforeDot("05")) == Some(5) && ZeroFirst(BeforeDot("05"))
  {
    assert Run("05") && [] + "05" == "05";
    RunParts("05");
    NumberMoves([], "05");
    assert Denotes("05", 10) == 5;
  }

  lemma FortyTwo()
    ensures Numeral(42, 10) == "42"
  {
    assert Numeral(4, 10) == "4";
  }

  lemma LaidOut()
    ensures Plain("-", "42", 5, true, false) == "00-42"
    ensures Laid("-", "42", 5, true, false, None) == "-0042"
  {
    assert Repeat('0', 2) == "00";
  }
}
