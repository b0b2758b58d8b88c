/** Glob-style patterns: compiling and matching (PatternMatcher.h, PatternMatcher.cc),
    in case-sensitive mode. */
module PatternMatching {
  import opened Prelude

  // setchars holds pairs of characters, each the two ends of a range; the ends of a numeric
  // range are -1 where unset.
  datatype Elem =
    | LiteralString(text: string)
    | AnyChar
    | CommonChar
    | CharSet(setchars: string)
    | NegSet(setchars: string)
    | NumRange(from: int, to: int)
    | AnySeq
    | CommonSeq
    | End

  predicate IsDigit(c: char) {
    '0' <= c <= '9'
  }

  // ---------- numbers ----------

  // Where the run of digits from i on ends.
  function DigitsEnd(s: string, i: nat): (r: nat)
    requires i <= |s|
    ensures i <= r <= |s|
    ensures forall k {:trigger IsDigit(s[k])} :: i <= k < r ==> IsDigit(s[k])
    ensures r < |s| ==> !IsDigit(s[r])
    decreases |s| - i
  {
    if i < |s| && IsDigit(s[i]) then DigitsEnd(s, i + 1) else i
  }

  function Number(s: string, i: nat, j: nat): nat
    requires i <= j <= |s| && forall k {:trigger IsDigit(s[k])} :: i <= k < j ==> IsDigit(s[k])
    decreases j
  {
    assert i < j ==> IsDigit(s[j - 1]);
    if i == j then 0 else Number(s, i, j - 1) * 10 + (s[j - 1] as int - '0' as int)
  }

  // atol and the loop that skips what it has read.
  method ReadNumber(s: string, i: nat) returns (value: nat, next: nat)
    requires i <= |s|
    ensures next == DigitsEnd(s, i) && value == Number(s, i, next)
  {
    value, next := 0, i;
    while next < |s| && IsDigit(s[next])
      invariant i <= next <= |s| && forall k {:trigger IsDigit(s[k])} :: i <= k < next ==> IsDigit(s[k])
      invariant DigitsEnd(s, next) == DigitsEnd(s, i) && value == Number(s, i, next)
    {
      value := value * 10 + (s[next] as int - '0' as int);
      next := next + 1;
    }
  }

  // ---------- the meaning of a pattern ----------

  predicate InPair(c: char, chars: string, p: nat)
    requires p < |chars| / 2
  {
    chars[2 * p] <= c <= chars[2 * p + 1]
  }

  predicate InSet(c: char, chars: string) {
    exists p :: 0 <= p < |chars| / 2 && InPair(c, chars, p)
  }

  predicate InRange(n: nat, from: int, to: int) {
    (from < 0 || from <= n) && (to < 0 || n <= to)
  }

  // The element e stands for the part of the line from a to b. A number ends where the
  // digits end.
  ghost predicate Spans(e: Elem, line: string, a: nat, b: nat) {
    && a <= b <= |line|
    && match e
      case LiteralString(t) => line[a..b] == t
      case AnyChar => b == a + 1
      case CommonChar => b == a + 1 && line[a] != '.'
      case CharSet(chars) => b == a + 1 && InSet(line[a], chars)
      case NegSet(chars) => b == a + 1 && !InSet(line[a], chars)
      case NumRange(from, to) =>
        && a < b && (forall k {:trigger IsDigit(line[k])} :: a <= k < b ==> IsDigit(line[k])) && (b < |line| ==> !IsDigit(line[b]))
        && InRange(Number(line, a, b), from, to)
      case AnySeq => true
      case CommonSeq => forall k :: a <= k < b ==> line[k] != '.'
      case End => false
  }

  // The line from a to z can be cut into parts that the elements stand for, in their order.
  ghost predicate Denotes(elems: seq<Elem>, line: string, a: nat, z: nat) {
    exists cuts: seq<nat> :: IsCut(cuts, elems, line, a, z)
  }

  ghost predicate IsCut(cuts: seq<nat>, elems: seq<Elem>, line: string, a: nat, z: nat) {
    && |cuts| == |elems| + 1 && cuts[0] == a && cuts[|elems|] == z
    && forall i {:trigger elems[i]} :: 0 <= i < |elems| ==> Spans(elems[i], line, cuts[i], cuts[i + 1])
  }

  // Element by element: from i on, the line to z matches the elements from k on.
  ghost predicate Reads(elems: seq<Elem>, k: nat, line: string, i: nat, z: nat)
    requires k <= |elems|
    decreases |elems| - k
  {
    if k == |elems| then i == z
    else exists j {:trigger Spans(elems[k], line, i, j)} :: Spans(elems[k], line, i, j) && Reads(elems, k + 1, line, j, z)
  }

  // Both readings of a pattern agree.
  lemma {:induction false} ReadsMeansCuts(elems: seq<Elem>, k: nat, line: string, i: nat, z: nat)
    requires k <= |elems|
    ensures Reads(elems, k, line, i, z) <==> Denotes(elems[k..], line, i, z)
    decreases |elems| - k
  {
    var rest := elems[k..];
    if k == |elems| {
      if i == z {
        assert IsCut([i], rest, line, i, z);
      }
    } else {
      var tail := elems[k + 1..];
      assert rest == [elems[k]] + tail;
      if Reads(elems, k, line, i, z) {
        var j: nat :| Spans(elems[k], line, i, j) && Reads(elems, k + 1, line, j, z);
        ReadsMeansCuts(elems, k + 1, line, j, z);
        var cuts :| IsCut(cuts, tail, line, j, z);
        CutCons(cuts, elems[k], tail, line, i, j, z);
      }
      if Denotes(rest, line, i, z) {
        var cuts :| IsCut(cuts, rest, line, i, z);
        var j := cuts[1];
        assert Spans(rest[0], line, cuts[0], cuts[1]);
        CutTail(cuts, elems[k], tail, line, i, z);
        ReadsMeansCuts(elems, k + 1, line, j, z);
      }
    }
  }

  lemma CutCons(cuts: seq<nat>, e: Elem, tail: seq<Elem>, line: string, i: nat, j: nat, z: nat)
    requires IsCut(cuts, tail, line, j, z) && Spans(e, line, i, j)
    ensures IsCut([i] + cuts, [e] + tail, line, i, z)
  {
    var longer, all := [i] + cuts, [e] + tail;
    forall n | 0 <= n < |all| ensures Spans(all[n], line, longer[n], longer[n + 1]) {
      if n > 0 {
        assert all[n] == tail[n - 1];
      }
    }
  }

  lemma CutTail(cuts: seq<nat>, e: Elem, tail: seq<Elem>, line: string, i: nat, z: nat)
    requires IsCut(cuts, [e] + tail, line, i, z)
    ensures IsCut(cuts[1..], tail, line, cuts[1], z)
  {
    var all := [e] + tail;
    forall n | 0 <= n < |tail| ensures Spans(tail[n], line, cuts[1..][n], cuts[1..][n + 1]) {
      assert tail[n] == all[n + 1];
    }
  }

  // ---------- facts behind the shortcuts ----------

  // A number read at a ends where its digits do.
  lemma NumberSpan(line: string, from: int, to: int, a: nat, b: nat)
    requires Spans(NumRange(from, to), line, a, b)
    ensures b == DigitsEnd(line, a)
  {
    var d := DigitsEnd(line, a);
    assert d < |line| ==> !IsDigit(line[d]);
    assert b < |line| ==> !IsDigit(line[b]);
  }

  predicate EndsWith(s: string, ending: string) {
    |ending| <= |s| && s[|s| - |ending|..] == ending
  }

  // What ends in a literal element ends in its text.
  lemma {:induction false} LastLiteral(elems: seq<Elem>, k: nat, line: string, i: nat)
    requires k < |elems| && elems[|elems| - 1].LiteralString? && Reads(elems, k, line, i, |line|)
    ensures EndsWith(line, elems[|elems| - 1].text)
    decreases |elems| - k
  {
    var j: nat :| Spans(elems[k], line, i, j) && Reads(elems, k + 1, line, j, |line|);
    if k < |elems| - 1 {
      LastLiteral(elems, k + 1, line, j);
    }
  }

  lemma LastTwo(elems: seq<Elem>, line: string)
    requires elems != [] && elems[|elems| - 1].LiteralString? && |elems[|elems| - 1].text| >= 2
    ensures Reads(elems, 0, line, 0, |line|) ==>
      var text := elems[|elems| - 1].text;
      |line| >= 2 && line[|line| - 1] == text[|text| - 1] && line[|line| - 2] == text[|text| - 2]
  {
    if Reads(elems, 0, line, 0, |line|) {
      LastLiteral(elems, 0, line, 0);
      var text := elems[|elems| - 1].text;
      var from := |line| - |text|;
      assert line[from..][|text| - 1] == line[|line| - 1] && line[from..][|text| - 2] == line[|line| - 2];
    }
  }

  // ---------- the syntax of patterns ----------

  datatype Outcome = Ok | Failed(error: Error)

  // Unmatched is the exception for a missing "}"; Overrun stands for a backslash at the end,
  // after which the original reads beyond the string.
  datatype Error = Unmatched | Overrun

  datatype Parsed<T> = Parsed(value: T, next: nat) | Stuck(error: Error)

  function Prepend<T>(front: seq<T>, r: Parsed<seq<T>>): Parsed<seq<T>> {
    if r.Stuck? then r else Parsed(front + r.value, r.next)
  }

  lemma PrependNothing<T>(r: Parsed<seq<T>>)
    ensures Prepend([], r) == r
  {
    assert r.Parsed? ==> [] + r.value == r.value;
  }

  lemma PrependTwice<T>(a: seq<T>, b: seq<T>, r: Parsed<seq<T>>)
    ensures Prepend(a, Prepend(b, r)) == Prepend(a + b, r)
  {
    assert r.Parsed? ==> a + (b + r.value) == (a + b) + r.value;
  }

  // A numeric range, with the place of its closing character.
  datatype Range = NoRange | Range(end: nat, from: int, to: int)

  function Bound(s: string, i: nat): int
    requires i <= |s|
  {
    if DigitsEnd(s, i) == i then -1 else Number(s, i, DigitsEnd(s, i))
  }

  // The numeric range that starts at i, if there is one.
  function RangeAt(s: string, i: nat, closing: char): (r: Range)
    requires i < |s|
    ensures r.Range? ==> i + 2 < r.end < |s| && s[r.end] == closing && closing != '.'
  {
    var a := DigitsEnd(s, i + 1);
    if a + 1 < |s| && s[a] == '.' && s[a + 1] == '.' then
      var b := DigitsEnd(s, a + 2);
      if b < |s| && s[b] == closing && closing != '.' then Range(b, Bound(s, i + 1), Bound(s, a + 2)) else NoRange
    else NoRange
  }

  predicate IsSpecial(c: char) {
    c == '?' || c == '{' || c == '*'
  }

  // The literal text from i on; it ends before a special character, or at a bracket that
  // starts a numeric range, which it includes but does not pass.
  function Literal(s: string, i: nat): (r: Parsed<string>)
    requires i <= |s|
    ensures r.Parsed? ==> i <= r.next <= |s|
    ensures r.Parsed? && i < |s| && !IsSpecial(s[i]) && r.next == i ==> s[i] == '[' && RangeAt(s, i, ']').Range?
    decreases |s| - i
  {
    if i == |s| || IsSpecial(s[i]) then Parsed("", i)
    else
      var j := if s[i] == '\\' then i + 1 else i;
      if j == |s| then Stuck(Overrun)
      else if s[j] == '[' && RangeAt(s, j, ']').Range? then Parsed([s[j]], j)
      else Prepend([s[j]], Literal(s, j + 1))
  }

  // The ranges of a set from i on, each as two characters; "}" ends it unless it comes first.
  function SetBody(s: string, i: nat, first: bool): (r: Parsed<string>)
    requires i <= |s|
    ensures r.Parsed? ==> i < r.next <= |s|
    decreases |s| - i
  {
    if i == |s| then Stuck(Unmatched)
    else if s[i] == '}' && !first then Parsed("", i + 1)
    else
      var wide := i + 2 < |s| && s[i + 1] == '-' && s[i + 2] != '}';
      if wide then Prepend([s[i], s[i + 2]], SetBody(s, i + 3, false))
      else Prepend([s[i], s[i]], SetBody(s, i + 1, false))
  }

  function SetAt(s: string, i: nat): (r: Parsed<Elem>)
    requires i < |s|
    ensures r.Parsed? ==> i < r.next <= |s| && (r.value.CharSet? || r.value.NegSet?)
  {
    var negated := i + 1 < |s| && s[i + 1] == '^';
    var body := SetBody(s, if negated then i + 2 else i + 1, true);
    if body.Stuck? then Stuck(body.error)
    else Parsed(if negated then NegSet(body.value) else CharSet(body.value), body.next)
  }

  // A bracketed range needs a literal before it, which the round before provides.
  predicate Stalls(s: string, i: nat, afterLiteral: bool) {
    i < |s| && s[i] == '[' && RangeAt(s, i, ']').Range? && !afterLiteral
  }

  // The element that starts at i.
  function Token(s: string, i: nat, afterLiteral: bool, dotted: bool): (r: Parsed<Elem>)
    requires i < |s|
    ensures r.Parsed? ==> i <= r.next <= |s| && r.value != End
    ensures r.Parsed? && r.next == i ==> Stalls(s, i, afterLiteral) && r.value.LiteralString?
  {
    if s[i] == '?' then Parsed(if dotted then CommonChar else AnyChar, i + 1)
    else if s[i] == '*' then
      if i + 1 < |s| && s[i + 1] == '*' then Parsed(AnySeq, i + 2)
      else Parsed(if dotted then CommonSeq else AnySeq, i + 1)
    else if s[i] == '{' then
      var range := RangeAt(s, i, '}');
      if range.Range? then Parsed(NumRange(range.from, range.to), range.end + 1) else SetAt(s, i)
    else
      var range := if s[i] == '[' && afterLiteral then RangeAt(s, i, ']') else NoRange;
      if range.Range? then Parsed(NumRange(range.from, range.to), range.end)
      else
        var text := Literal(s, i);
        if text.Stuck? then Stuck(text.error) else Parsed(LiteralString(text.value), text.next)
  }

  // The elements of the pattern text from i on.
  function Compile(s: string, i: nat, afterLiteral: bool, dotted: bool): (r: Parsed<seq<Elem>>)
    requires i <= |s|
    ensures r.Parsed? ==> forall k :: 0 <= k < |r.value| ==> r.value[k] != End
    decreases |s| - i, if Stalls(s, i, afterLiteral) then 1 else 0
  {
    if i == |s| then Parsed([], i)
    else
      var t := Token(s, i, afterLiteral, dotted);
      if t.Stuck? then Stuck(t.error)
      else Prepend([t.value], Compile(s, t.next, t.value.LiteralString?, dotted))
  }

  // For substrings, "**" is added at both ends, unless it is there.
  function Framed(elems: seq<Elem>, fullstring: bool): seq<Elem> {
    if fullstring then elems
    else
      var e := if elems == [] || elems[|elems| - 1] != AnySeq then elems + [AnySeq] else elems;
      if e[0] != AnySeq then [AnySeq] + e else e
  }

  class PatternMatcher {
    var pattern: seq<Elem>

    // No pattern yet, not even the empty one.
    constructor ()
      ensures pattern == []
    {
      pattern := [];
    }

    // A compiled pattern has its end mark at the end only.
    predicate Valid()
      reads this
    {
      pattern != [] && forall k {:trigger pattern[k]} :: 0 <= k < |pattern| ==> (pattern[k] == End <==> k == |pattern| - 1)
    }

    function Elems(): seq<Elem>
      requires Valid()
      reads this
    {
      pattern[..|pattern| - 1]
    }

    // Tries to read a numeric range.
    method ParseNumRange(s: string, i: nat, closing: char) returns (r: Range)
      requires i < |s| && closing != '.'
      ensures r == RangeAt(s, i, closing)
    {
      var from: int, to: int := -1, -1;
      var j := i + 1;
      if j < |s| && IsDigit(s[j]) {
        from, j := ReadNumber(s, j);
      }
      if j + 1 >= |s| || s[j] != '.' || s[j + 1] != '.' {
        return NoRange;
      }
      j := j + 2;
      if j < |s| && IsDigit(s[j]) {
        to, j := ReadNumber(s, j);
      }
      if j == |s| || s[j] != closing {
        return NoRange;
      }
      r := Range(j, from, to);
    }

    method ParseLiteralString(s: string, i: nat) returns (r: Parsed<string>)
      requires i <= |s|
      ensures r == Literal(s, i)
    {
      var text: string, j: nat := "", i;
      PrependNothing(Literal(s, i));
      while j < |s| && !IsSpecial(s[j])
        invariant i <= j <= |s| && Literal(s, i) == Prepend(text, Literal(s, j))
        decreases |s| - j
      {
        ghost var before := text;
        if s[j] == '\\' {
          j := j + 1;
          if j == |s| {
            return Stuck(Overrun);
          }
        }
        text := text + [s[j]];
        if s[j] == '[' {
          var range := ParseNumRange(s, j, ']');
          if range.Range? {
            return Parsed(text, j);
          }
        }
        PrependTwice(before, [s[j]], Literal(s, j + 1));
        j := j + 1;
      }
      assert text + [] == text;
      r := Parsed(text, j);
    }

    method ParseSet(s: string, i: nat) returns (r: Parsed<Elem>)
      requires i < |s|
      ensures r == SetAt(s, i)
    {
      var j, negated := i + 1, false;
      if j < |s| && s[j] == '^' {
        negated := true;
        j := j + 1;
      }
      var sbeg, chars: string := j, "";
      PrependNothing(SetBody(s, sbeg, true));
      while j < |s| && (s[j] != '}' || j == sbeg)
        invariant sbeg <= j <= |s| && SetBody(s, sbeg, true) == Prepend(chars, SetBody(s, j, j == sbeg))
        decreases |s| - j
      {
        if j + 2 < |s| && s[j + 1] == '-' && s[j + 2] != '}' {
          PrependTwice(chars, [s[j], s[j + 2]], SetBody(s, j + 3, false));
          chars := chars + [s[j], s[j + 2]];
          j := j + 3;
        } else {
          PrependTwice(chars, [s[j], s[j]], SetBody(s, j + 1, false));
          chars := chars + [s[j], s[j]];
          j := j + 1;
        }
      }
      if j == |s| {
        return Stuck(Unmatched);
      }
      assert chars + [] == chars;
      r := Parsed(if negated then NegSet(chars) else CharSet(chars), j + 1);
    }

    // One round of the tokenizer.
    method ParseToken(s: string, i: nat, dotted: bool) returns (r: Parsed<Elem>)
      requires i < |s|
      ensures r == Token(s, i, AfterLiteral(), dotted)
    {
      var range := NoRange;
      match s[i] {
        case '?' =>
          return Parsed(if dotted then CommonChar else AnyChar, i + 1);
        case '*' =>
          if i + 1 < |s| && s[i + 1] == '*' {
            return Parsed(AnySeq, i + 2);
          }
          return Parsed(if dotted then CommonSeq else AnySeq, i + 1);
        case '{' =>
          range := ParseNumRange(s, i, '}');
          if range.Range? {
            return Parsed(NumRange(range.from, range.to), range.end + 1);
          }
          r := ParseSet(s, i);
          return;
        case '[' =>
          if AfterLiteral() {
            range := ParseNumRange(s, i, ']');
            if range.Range? {
              return Parsed(NumRange(range.from, range.to), range.end);
            }
          }
        case _ =>
      }
      var text := ParseLiteralString(s, i);
      r := if text.Stuck? then Stuck(text.error) else Parsed(LiteralString(text.value), text.next);
    }

    // The last element so far is a literal.
    predicate AfterLiteral()
      reads this
    {
      pattern != [] && pattern[|pattern| - 1].LiteralString?
    }

    // Compiles a pattern; a failure stands for the exception thrown.
    method SetPattern(patt: string, dotted: bool, fullstring: bool) returns (r: Outcome)
      modifies this
      ensures match Compile(patt, 0, false, dotted)
        case Parsed(elems, _) => r == Ok && Valid() && Elems() == Framed(elems, fullstring)
        case Stuck(error) => r == Failed(error)
    {
      r := Tokenize(patt, dotted);
      if r.Failed? {
        return;
      }
      Frame(fullstring);
      ghost var elems := pattern;
      pattern := pattern + [End];
      assert Elems() == elems;
    }

    method Frame(fullstring: bool)
      modifies this
      ensures pattern == Framed(old(pattern), fullstring)
      ensures End !in old(pattern) ==> End !in pattern
    {
      if !fullstring {
        if pattern == [] || pattern[|pattern| - 1] != AnySeq {
          pattern := pattern + [AnySeq];
        }
        if pattern[0] != AnySeq {
          pattern := [AnySeq] + pattern;
        }
      }
    }

    // The loop of setPattern. A round may leave the place in the text alone, but then the
    // next one does not.
    method Tokenize(patt: string, dotted: bool) returns (r: Outcome)
      modifies this
      ensures match Compile(patt, 0, false, dotted)
        case Parsed(elems, _) => r == Ok && pattern == elems
        case Stuck(error) => r == Failed(error)
    {
      pattern := [];
      var s: nat := 0;
      PrependNothing(Compile(patt, 0, false, dotted));
      while s < |patt|
        invariant s <= |patt|
        invariant Compile(patt, 0, false, dotted) == Prepend(pattern, Compile(patt, s, AfterLiteral(), dotted))
        decreases |patt| - s, if Stalls(patt, s, AfterLiteral()) then 1 else 0
      {
        var t := ParseToken(patt, s, dotted);
        if t.Stuck? {
          return Failed(t.error);
        }
        PrependTwice(pattern, [t.value], Compile(patt, t.next, t.value.LiteralString?, dotted));
        pattern := pattern + [t.value];
        s := t.next;
      }
      r := Ok;
    }

    method IsInSet(c: char, chars: string) returns (r: bool)
      ensures r == InSet(c, chars)
    {
      var p := 0;
      while 2 * p + 1 < |chars|
        invariant 0 <= p <= |chars| / 2
        invariant forall q :: 0 <= q < p ==> !InPair(c, chars, q)
      {
        if InPair(c, chars, p) {
          return true;
        }
        p := p + 1;
      }
      r := false;
    }

    // The general case of "**".
    method MatchAnySeq(line: string, i: nat, k: nat) returns (r: bool)
      requires Valid() && k < |pattern| - 1 && pattern[k] == AnySeq && i <= |line|
      ensures r <==> Reads(Elems(), k, line, i, |line|)
      decreases |pattern| - k, 0
    {
      var s := i;
      while true
        invariant s <= |line|
        invariant Reads(Elems(), k, line, i, |line|) <==> Reads(Elems(), k, line, s, |line|)
        decreases |line| - s
      {
        var found := DoMatch(line, s, k + 1);
        AnySeqStep(Elems(), k, line, s);
        if found {
          return true;
        }
        if s == |line| {
          return false;
        }
        s := s + 1;
      }
    }

    method MatchCommonSeq(line: string, i: nat, k: nat) returns (r: bool)
      requires Valid() && k < |pattern| - 1 && pattern[k] == CommonSeq && i <= |line|
      ensures r <==> Reads(Elems(), k, line, i, |line|)
      decreases |pattern| - k, 0
    {
      var s := i;
      while true
        invariant s <= |line|
        invariant Reads(Elems(), k, line, i, |line|) <==> Reads(Elems(), k, line, s, |line|)
        decreases |line| - s
      {
        var found := DoMatch(line, s, k + 1);
        CommonSeqStep(Elems(), k, line, s);
        if found {
          return true;
        }
        if s == |line| || line[s] == '.' {
          return false;
        }
        s := s + 1;
      }
    }

    // Does the line from i on match the pattern from k0 on?
    method DoMatch(line: string, i: nat, k0: nat) returns (r: bool)
      requires Valid() && k0 < |pattern| && i <= |line|
      ensures r <==> Reads(Elems(), k0, line, i, |line|)
      decreases |pattern| - k0, 1
    {
      var s: nat, k: nat := i, k0;
      ghost var elems := Elems();
      while true
        invariant k0 <= k < |pattern| && s <= |line|
        invariant Reads(elems, k0, line, i, |line|) <==> Reads(elems, k, line, s, |line|)
        decreases |pattern| - k
      {
        var e := pattern[k];
        assert k < |elems| ==> elems[k] == e;
        match e {
          case LiteralString(text) =>
            if s + |text| > |line| || line[s..s + |text|] != text {
              return false;
            }
            OneWay(elems, k, line, s, s + |text|);
            s := s + |text|;
          case AnyChar =>
            if s == |line| {
              return false;
            }
            OneWay(elems, k, line, s, s + 1);
            s := s + 1;
          case CommonChar =>
            if s == |line| || line[s] == '.' {
              return false;
            }
            OneWay(elems, k, line, s, s + 1);
            s := s + 1;
          case CharSet(chars) =>
            if s == |line| {
              return false;
            }
            var found := IsInSet(line[s], chars);
            if !found {
              return false;
            }
            OneWay(elems, k, line, s, s + 1);
            s := s + 1;
          case NegSet(chars) =>
            if s == |line| {
              return false;
            }
            var found := IsInSet(line[s], chars);
            if found {
              return false;
            }
            OneWay(elems, k, line, s, s + 1);
            s := s + 1;
          case NumRange(from, to) =>
            if s == |line| || !IsDigit(line[s]) {
              return false;
            }
            var num, next := ReadNumber(line, s);
            NumberOnly(elems, k, line, s, from, to);
            if (from >= 0 && num < from) || (to >= 0 && num > to) {
              return false;
            }
            s := next;
          case AnySeq =>
            if k == |pattern| - 2 {
              EndsInAnySeq(elems, k, line, s);
              return true;
            }
            if k == |pattern| - 3 && pattern[k + 1].LiteralString? {
              EndsInLiteral(elems, k, line, s);
              r := EndsWith(line[s..], pattern[k + 1].text);
              return;
            }
            r := MatchAnySeq(line, s, k);
            return;
          case CommonSeq =>
            r := MatchCommonSeq(line, s, k);
            return;
          case End =>
            return s == |line|;
        }
        k := k + 1;
      }
    }

    // Does the whole line match?
    method Matches(line: string) returns (r: bool)
      requires Valid()
      ensures r <==> Denotes(Elems(), line, 0, |line|)
    {
      ghost var elems := Elems();
      assert elems[0..] == elems;
      ReadsMeansCuts(elems, 0, line, 0, |line|);
      if |pattern| >= 2 {
        var e := pattern[|pattern| - 2];
        assert e == elems[|elems| - 1];
        if e.LiteralString? {
          var pattlen, linelen := |e.text|, |line|;
          if pattlen >= 2 && linelen >= 2
            && (line[linelen - 1] != e.text[pattlen - 1] || line[linelen - 2] != e.text[pattlen - 2])
          {
            LastTwo(elems, line);
            return false;
          }
        }
      }
      r := DoMatch(line, 0, 0);
    }
  }

  // An element that can stand for one part only.
  lemma OneWay(elems: seq<Elem>, k: nat, line: string, s: nat, next: nat)
    requires k < |elems| && Spans(elems[k], line, s, next)
    requires elems[k].LiteralString? || elems[k].AnyChar? || elems[k].CommonChar? || elems[k].CharSet? || elems[k].NegSet?
    ensures Reads(elems, k, line, s, |line|) <==> Reads(elems, k + 1, line, next, |line|)
  {
    forall j: nat | Spans(elems[k], line, s, j) ensures j == next {
      if elems[k].LiteralString? {
        assert |line[s..j]| == |line[s..next]|;
      }
    }
  }

  lemma NumberOnly(elems: seq<Elem>, k: nat, line: string, s: nat, from: int, to: int)
    requires k < |elems| && elems[k] == NumRange(from, to) && s < |line| && IsDigit(line[s])
    ensures Reads(elems, k, line, s, |line|) <==>
      InRange(Number(line, s, DigitsEnd(line, s)), from, to) && Reads(elems, k + 1, line, DigitsEnd(line, s), |line|)
  {
    forall j: nat | Spans(elems[k], line, s, j) ensures j == DigitsEnd(line, s) {
      NumberSpan(line, from, to, s, j);
    }
    if InRange(Number(line, s, DigitsEnd(line, s)), from, to) {
      assert Spans(elems[k], line, s, DigitsEnd(line, s));
    }
  }

  // A trailing "**" takes whatever is left.
  lemma EndsInAnySeq(elems: seq<Elem>, k: nat, line: string, s: nat)
    requires k == |elems| - 1 && elems[k] == AnySeq && s <= |line|
    ensures Reads(elems, k, line, s, |line|)
  {
    assert Spans(elems[k], line, s, |line|);
  }

  // "**" and a last literal: the literal has to be at the end.
  lemma EndsInLiteral(elems: seq<Elem>, k: nat, line: string, s: nat)
    requires k == |elems| - 2 && elems[k] == AnySeq && elems[k + 1].LiteralString? && s <= |line|
    ensures Reads(elems, k, line, s, |line|) <==> EndsWith(line[s..], elems[k + 1].text)
  {
    var text := elems[k + 1].text;
    if EndsWith(line[s..], text) {
      var j := |line| - |text|;
      assert line[s..][|line[s..]| - |text|..] == line[j..|line|];
      assert Spans(elems[k + 1], line, j, |line|) && Reads(elems, k + 2, line, |line|, |line|);
      assert Spans(elems[k], line, s, j) && Reads(elems, k + 1, line, j, |line|);
    }
    if Reads(elems, k, line, s, |line|) {
      var j: nat :| Spans(elems[k], line, s, j) && Reads(elems, k + 1, line, j, |line|);
      var z: nat :| Spans(elems[k + 1], line, j, z) && Reads(elems, k + 2, line, z, |line|);
      assert line[s..][|line[s..]| - |text|..] == line[j..z];
    }
  }

  lemma AnySeqStep(elems: seq<Elem>, k: nat, line: string, s: nat)
    requires k < |elems| && elems[k] == AnySeq && s <= |line|
    ensures Reads(elems, k, line, s, |line|) <==>
      Reads(elems, k + 1, line, s, |line|) || (s < |line| && Reads(elems, k, line, s + 1, |line|))
  {
    assert Spans(elems[k], line, s, s);
    if Reads(elems, k, line, s, |line|) {
      var j: nat :| Spans(elems[k], line, s, j) && Reads(elems, k + 1, line, j, |line|);
      assert s < j ==> Spans(elems[k], line, s + 1, j);
    }
    if s < |line| && Reads(elems, k, line, s + 1, |line|) {
      var j: nat :| Spans(elems[k], line, s + 1, j) && Reads(elems, k + 1, line, j, |line|);
      assert Spans(elems[k], line, s, j);
    }
  }

  lemma CommonSeqStep(elems: seq<Elem>, k: nat, line: string, s: nat)
    requires k < |elems| && elems[k] == CommonSeq && s <= |line|
    ensures Reads(elems, k, line, s, |line|) <==>
      Reads(elems, k + 1, line, s, |line|) || (s < |line| && line[s] != '.' && Reads(elems, k, line, s + 1, |line|))
  {
    assert Spans(elems[k], line, s, s);
    if Reads(elems, k, line, s, |line|) {
      var j: nat :| Spans(elems[k], line, s, j) && Reads(elems, k + 1, line, j, |line|);
      assert s < j ==> Spans(elems[k], line, s + 1, j);
    }
    if s < |line| && line[s] != '.' && Reads(elems, k, line, s + 1, |line|) {
      var j: nat :| Spans(elems[k], line, s + 1, j) && Reads(elems, k + 1, line, j, |line|);
      assert Spans(elems[k], line, s, j);
    }
  }

  // ---------- substrings ----------

  // In substring mode a line matches exactly if some part of it does, numbers still being
  // bounded by the digits of the whole line.
  lemma SubstringMode(elems: seq<Elem>, line: string)
    ensures Denotes(Framed(elems, false), line, 0, |line|) <==>
      exists a: nat, b: nat {:trigger Denotes(elems, line, a, b)} :: a <= b <= |line| && Denotes(elems, line, a, b)
  {
    var e := if elems == [] || elems[|elems| - 1] != AnySeq then elems + [AnySeq] else elems;
    if Denotes(Framed(elems, false), line, 0, |line|) {
      var a := FrontLoose(e, line, |line|);
      var b := BackLoose(elems, line, a);
    }
    if a: nat, b: nat :| a <= b <= |line| && Denotes(elems, line, a, b) {
      BackTight(elems, line, a, b);
      FrontTight(e, line, a, |line|);
    }
  }

  lemma CutsAscend(cuts: seq<nat>, elems: seq<Elem>, line: string, a: nat, z: nat, i: nat)
    requires IsCut(cuts, elems, line, a, z) && i <= |elems|
    ensures a <= cuts[i] && (elems != [] ==> cuts[i] <= |line|)
  {
    if i > 0 {
      CutsAscend(cuts, elems, line, a, z, i - 1);
      assert Spans(elems[i - 1], line, cuts[i - 1], cuts[i]);
    } else if elems != [] {
      assert Spans(elems[0], line, cuts[0], cuts[1]);
    }
  }

  lemma FrontLoose(e: seq<Elem>, line: string, z: nat) returns (a: nat)
    requires e != [] && Denotes(if e[0] != AnySeq then [AnySeq] + e else e, line, 0, z)
    ensures Denotes(e, line, a, z)
  {
    if e[0] == AnySeq {
      a := 0;
    } else {
      var cuts :| IsCut(cuts, [AnySeq] + e, line, 0, z);
      CutTail(cuts, AnySeq, e, line, 0, z);
      a := cuts[1];
    }
  }

  lemma FrontTight(e: seq<Elem>, line: string, a: nat, z: nat)
    requires e != [] && Denotes(e, line, a, z)
    ensures Denotes(if e[0] != AnySeq then [AnySeq] + e else e, line, 0, z)
  {
    var cuts :| IsCut(cuts, e, line, a, z);
    assert Spans(e[0], line, cuts[0], cuts[1]);
    if e[0] == AnySeq {
      var wider := cuts[0 := 0];
      forall i | 0 <= i < |e| ensures Spans(e[i], line, wider[i], wider[i + 1]) {
        assert Spans(e[i], line, cuts[i], cuts[i + 1]);
      }
      assert IsCut(wider, e, line, 0, z);
    } else {
      assert Spans(AnySeq, line, 0, a);
      CutCons(cuts, AnySeq, e, line, 0, a, z);
    }
  }

  lemma BackLoose(elems: seq<Elem>, line: string, a: nat) returns (b: nat)
    requires Denotes(if elems == [] || elems[|elems| - 1] != AnySeq then elems + [AnySeq] else elems, line, a, |line|)
    ensures a <= b <= |line| && Denotes(elems, line, a, b)
  {
    if elems == [] || elems[|elems| - 1] != AnySeq {
      var e, n := elems + [AnySeq], |elems|;
      var cuts :| IsCut(cuts, e, line, a, |line|);
      b := cuts[n];
      CutsAscend(cuts, e, line, a, |line|, n);
      forall i | 0 <= i < n ensures Spans(elems[i], line, cuts[..n + 1][i], cuts[..n + 1][i + 1]) {
        assert Spans(e[i], line, cuts[i], cuts[i + 1]);
      }
      assert IsCut(cuts[..n + 1], elems, line, a, b);
    } else {
      var cuts :| IsCut(cuts, elems, line, a, |line|);
      CutsAscend(cuts, elems, line, a, |line|, |elems|);
      b := |line|;
    }
  }

  lemma BackTight(elems: seq<Elem>, line: string, a: nat, b: nat)
    requires b <= |line| && Denotes(elems, line, a, b)
    ensures Denotes(if elems == [] || elems[|elems| - 1] != AnySeq then elems + [AnySeq] else elems, line, a, |line|)
  {
    var n := |elems|;
    var cuts: seq<nat> :| IsCut(cuts, elems, line, a, b);
    if elems == [] || elems[n - 1] != AnySeq {
      var e, longer: seq<nat> := elems + [AnySeq], cuts + [|line|];
      forall i | 0 <= i < |e| ensures Spans(e[i], line, longer[i], longer[i + 1]) {
        if i < n {
          assert Spans(elems[i], line, cuts[i], cuts[i + 1]);
        }
      }
      assert IsCut(longer, e, line, a, |line|);
    } else {
      var wider: seq<nat> := cuts[n := |line|];
      forall i | 0 <= i < n ensures Spans(elems[i], line, wider[i], wider[i + 1]) {
        assert Spans(elems[i], line, cuts[i], cuts[i + 1]);
      }
      assert IsCut(wider, elems, line, a, |line|);
    }
  }

  // ---------- patterns without wildcards ----------

  predicate ContainsWildcards(p: string) {
    '?' in p || '*' in p || '\\' in p || '{' in p || exists i {:trigger p[i]} :: 0 <= i < |p| - 1 && p[i] == '.' && p[i + 1] == '.'
  }

  lemma NoRangeInPlain(p: string, i: nat)
    requires !ContainsWildcards(p) && i < |p|
    ensures RangeAt(p, i, ']') == NoRange
  {
    var a := DigitsEnd(p, i + 1);
    assert a + 1 < |p| ==> !(p[a] == '.' && p[a + 1] == '.');
  }

  lemma {:induction false} PlainLiteral(p: string, i: nat)
    requires !ContainsWildcards(p) && i <= |p|
    ensures Literal(p, i) == Parsed(p[i..], |p|)
    decreases |p| - i
  {
    if i == |p| {
      assert p[i..] == "";
    } else {
      assert p[i] in p;
      NoRangeInPlain(p, i);
      PlainLiteral(p, i + 1);
      assert p[i..] == [p[i]] + p[i + 1..];
    }
  }

  lemma OneLiteral(line: string, text: string)
    ensures Denotes([LiteralString(text)], line, 0, |line|) <==> line == text
    ensures Denotes([], line, 0, |line|) <==> line == ""
  {
    var e := [LiteralString(text)];
    if Denotes(e, line, 0, |line|) {
      var cuts :| IsCut(cuts, e, line, 0, |line|);
      assert Spans(e[0], line, cuts[0], cuts[1]);
      assert line[0..|line|] == line;
    }
    if line == text {
      assert line[0..|line|] == line;
      assert IsCut([0, |line|], e, line, 0, |line|);
    }
    if line == "" {
      assert IsCut([0], [], line, 0, |line|);
    }
    if Denotes([], line, 0, |line|) {
      var cuts :| IsCut(cuts, [], line, 0, |line|);
    }
  }

  // What containsWildcards is for: without wildcards a pattern matches itself and nothing else.
  lemma PlainMatchesItself(p: string, dotted: bool, line: string)
    requires !ContainsWildcards(p)
    ensures Compile(p, 0, false, dotted).Parsed?
    ensures Denotes(Framed(Compile(p, 0, false, dotted).value, true), line, 0, |line|) <==> line == p
  {
    OneLiteral(line, p);
    if p != "" {
      assert p[0] in p;
      PlainLiteral(p, 0);
      assert p[0..] == p;
      assert Compile(p, |p|, true, dotted) == Parsed([], |p|);
      assert [LiteralString(p)] + [] == [LiteralString(p)];
    }
  }

  // ---------- the backslash ----------

  function EscapeAll(t: string): (r: string)
    ensures |r| == 2 * |t|
  {
    if t == "" then "" else ['\\', t[0]] + EscapeAll(t[1..])
  }

  // Characters that mean something outside sets.
  predicate NeedsEscape(c: char) {
    IsSpecial(c) || c == '\\' || c == '['
  }

  function Escape(t: string): string {
    if t == "" then "" else (if NeedsEscape(t[0]) then ['\\', t[0]] else [t[0]]) + Escape(t[1..])
  }

  // What follows an opening bracket makes it a numeric range: digits, two dots, digits and
  // the closing bracket.
  predicate OpensRange(u: string) {
    HasDots(u[DigitsEnd(u, 0)..])
  }

  predicate HasDots(u: string) {
    |u| >= 2 && u[0] == '.' && u[1] == '.' && Closes(u[2..][DigitsEnd(u[2..], 0)..])
  }

  predicate Closes(u: string) {
    u != "" && u[0] == ']'
  }

  predicate StartsRange(t: string) {
    t != "" && t[0] == '[' && OpensRange(t[1..])
  }

  // Somewhere in the text there is a numeric range in brackets.
  predicate HasBracketRange(t: string) {
    t != "" && (StartsRange(t) || HasBracketRange(t[1..]))
  }

  lemma {:induction false} DigitsEndShift(s: string, i: nat, j: nat)
    requires i <= j <= |s|
    ensures DigitsEnd(s, j) == i + DigitsEnd(s[i..], j - i)
    decreases |s| - j
  {
    if j < |s| {
      DigitsEndShift(s, i, j + 1);
    }
  }

  lemma RestShift(s: string, i: nat)
    requires i <= |s|
    ensures s[i..][DigitsEnd(s[i..], 0)..] == s[DigitsEnd(s, i)..]
  {
    DigitsEndShift(s, i, i);
  }

  lemma RangeAtMeaning(s: string, i: nat)
    requires i < |s|
    ensures RangeAt(s, i, ']').Range? <==> OpensRange(s[i + 1..])
  {
    RestShift(s, i + 1);
    var a := DigitsEnd(s, i + 1);
    if a + 1 < |s| && s[a] == '.' && s[a + 1] == '.' {
      RestShift(s, a + 2);
      assert s[a..][2..] == s[a + 2..];
    }
  }

  // Escaping leaves digits, dots and closing brackets alone, so a range stays a range.
  lemma {:induction false} EscapeKeepsDigits(u: string, v: string)
    requires v == Escape(u)
    ensures DigitsEnd(v, 0) == DigitsEnd(u, 0) && v[DigitsEnd(v, 0)..] == Escape(u[DigitsEnd(u, 0)..])
    decreases |u|
  {
    if u != "" && IsDigit(u[0]) {
      EscapeKeepsDigits(u[1..], v[1..]);
      DigitsEndShift(u, 1, 1);
      DigitsEndShift(v, 1, 1);
      assert u[1..][DigitsEnd(u[1..], 0)..] == u[DigitsEnd(u, 0)..];
      assert v[1..][DigitsEnd(v[1..], 0)..] == v[DigitsEnd(v, 0)..];
    } else {
      assert u[0..] == u && v[0..] == v;
    }
  }

  lemma EscapeKeepsRange(u: string)
    ensures OpensRange(Escape(u)) <==> OpensRange(u)
  {
    EscapeKeepsDigits(u, Escape(u));
    EscapeKeepsDots(u[DigitsEnd(u, 0)..]);
  }

  lemma EscapeKeepsFirst(w: string)
    ensures Escape(w) == "" <==> w == ""
    ensures w != "" && !NeedsEscape(w[0]) ==> Escape(w) == [w[0]] + Escape(w[1..])
    ensures w != "" && NeedsEscape(w[0]) ==> Escape(w)[0] == '\\'
  {
  }

  lemma EscapeKeepsClose(x: string)
    ensures Closes(Escape(x)[DigitsEnd(Escape(x), 0)..]) <==> Closes(x[DigitsEnd(x, 0)..])
  {
    EscapeKeepsDigits(x, Escape(x));
    EscapeKeepsFirst(x[DigitsEnd(x, 0)..]);
  }

  lemma EscapeKeepsDots(w: string)
    ensures HasDots(Escape(w)) <==> HasDots(w)
  {
    EscapeKeepsFirst(w);
    if w != "" && w[0] == '.' {
      var v := w[1..];
      EscapeKeepsFirst(v);
      if v != "" && v[0] == '.' {
        assert v[1..] == w[2..];
        assert Escape(w)[2..] == Escape(w)[1..][1..] == Escape(w[2..]);
        EscapeKeepsClose(w[2..]);
      }
    }
  }

  // Escaping the characters that need it gives a pattern, and that matches the text itself and
  // nothing else - exactly if the text has no numeric range in brackets: the backslash does not
  // keep a bracket from starting one, and then the text itself is not matched.
  lemma EscapedPattern(t: string, dotted: bool)
    ensures Compile(Escape(t), 0, false, dotted).Parsed?
    ensures var elems := Framed(Compile(Escape(t), 0, false, dotted).value, true);
      (forall line: string :: Denotes(elems, line, 0, |line|) <==> line == t) <==> !HasBracketRange(t)
  {
    var p := Escape(t);
    assert p[0..] == p;
    EscapedCompiles(p, 0, t, false, dotted);
    var elems := Compile(p, 0, false, dotted).value;
    if HasBracketRange(t) {
      var head, u, rest := EscapedRange(p, t, dotted);
      NotItself(t, head, u, rest);
    } else {
      forall line: string ensures Denotes(elems, line, 0, |line|) <==> line == t {
        OneLiteral(line, t);
        EscapedLiteral(p, t, dotted);
      }
    }
  }

  lemma EscapedLiteral(p: string, t: string, dotted: bool)
    requires p == Escape(t) && !HasBracketRange(t)
    ensures Compile(p, 0, false, dotted) == Parsed(if t == "" then [] else [LiteralString(t)], |p|)
  {
    if t != "" {
      assert p[0..] == p;
      EscapedToken(p, 0, t, false, dotted);
      EscapedWhole(p, 0, t);
      assert Compile(p, |p|, true, dotted) == Parsed([], |p|);
      assert [LiteralString(t)] + [] == [LiteralString(t)];
    }
  }

  // What there is from i on is t with the characters that need it escaped.
  predicate IsEscaped(p: string, i: nat, t: string) {
    i <= |p| && p[i..] == Escape(t)
  }

  // The parts of what there is from i on.
  lemma Parts(p: string, i: nat, a: string, b: string)
    requires i <= |p| && p[i..] == a + b
    ensures i + |a| <= |p| && p[i..i + |a|] == a && p[i + |a|..] == b
    ensures forall k {:trigger a[k]} :: 0 <= k < |a| ==> p[i + k] == a[k]
    ensures i + |a| < |p| <==> b != ""
    ensures b != "" ==> p[i + |a|] == b[0]
  {
    assert p[i..i + |a|] == p[i..][..|a|] && p[i + |a|..] == p[i..][|a|..];
    assert forall k {:trigger a[k]} :: 0 <= k < |a| ==> p[i + k] == p[i..][k];
    assert b != "" ==> p[i + |a|] == p[i..][|a|];
  }

  lemma LiteralStep(p: string, i: nat, j: nat)
    requires i < |p| && !IsSpecial(p[i]) && j == (if p[i] == '\\' then i + 1 else i) && j < |p|
    ensures p[j] == '[' && RangeAt(p, j, ']').Range? ==> Literal(p, i) == Parsed([p[j]], j)
    ensures !(p[j] == '[' && RangeAt(p, j, ']').Range?) ==> Literal(p, i) == Prepend([p[j]], Literal(p, j + 1))
  {
  }

  // One step of reading an escaped text; returns where the next begins, and whether there is one.
  lemma EscapedStep(p: string, i: nat, t: string) returns (j: nat, opens: bool)
    requires t != "" && IsEscaped(p, i, t)
    ensures i <= j < |p| && p[j] == t[0] && IsEscaped(p, j + 1, t[1..])
    ensures opens <==> StartsRange(t)
    ensures opens ==> p[j] == '[' && RangeAt(p, j, ']').Range? && OpensRange(t[1..]) && Literal(p, i) == Parsed(t[..1], j)
    ensures !opens ==> Literal(p, i) == Prepend([t[0]], Literal(p, j + 1))
  {
    j := if NeedsEscape(t[0]) then i + 1 else i;
    opens := StartsRange(t);
    EscapedChar(p, i, t, j);
    LiteralStep(p, i, j);
    RangeAtMeaning(p, j);
    EscapeKeepsRange(t[1..]);
    assert t[..1] == [t[0]];
  }

  lemma EscapedChar(p: string, i: nat, t: string, j: nat)
    requires t != "" && IsEscaped(p, i, t) && j == if NeedsEscape(t[0]) then i + 1 else i
    ensures j < |p| && p[j] == t[0] && IsEscaped(p, j + 1, t[1..])
    ensures !IsSpecial(p[i]) && p[i] != '[' && j == if p[i] == '\\' then i + 1 else i
  {
    var front := if NeedsEscape(t[0]) then ['\\', t[0]] else [t[0]];
    Parts(p, i, front, Escape(t[1..]));
    assert p[i + 0] == front[0] && p[i + (|front| - 1)] == front[|front| - 1];
  }

  lemma PrependFirst(t: string, r: Parsed<string>, next: nat)
    requires t != "" && r == Parsed(t[1..], next)
    ensures Prepend([t[0]], r) == Parsed(t, next)
  {
    assert [t[0]] + t[1..] == t;
  }

  // Without a range all of the text is read.
  lemma {:induction false} EscapedWhole(p: string, i: nat, t: string)
    requires IsEscaped(p, i, t) && !HasBracketRange(t)
    ensures Literal(p, i) == Parsed(t, |p|)
    decreases |t|
  {
    if t != "" {
      var j, opens := EscapedStep(p, i, t);
      EscapedWhole(p, j + 1, t[1..]);
      PrependFirst(t, Literal(p, j + 1), |p|);
    }
  }

  // With one the reading ends at the bracket, at j, head being read and u left.
  ghost predicate IsCutOff(p: string, i: nat, t: string, j: nat, head: string, u: string) {
    && i <= j < |p| && t == head + u && Literal(p, i) == Parsed(head, j)
    && p[j] == '[' && RangeAt(p, j, ']').Range? && IsEscaped(p, j + 1, u) && OpensRange(u)
  }

  lemma {:induction false} EscapedCut(p: string, i: nat, t: string) returns (j: nat, head: string, u: string)
    requires IsEscaped(p, i, t) && HasBracketRange(t)
    ensures IsCutOff(p, i, t, j, head, u)
    decreases |t|
  {
    var k, opens := EscapedStep(p, i, t);
    if opens {
      j, head, u := k, t[..1], t[1..];
      assert t == t[..1] + t[1..];
    } else {
      ghost var front;
      j, front, u := EscapedCut(p, k + 1, t[1..]);
      head := LongerHead(p, i, k, t, j, front, u);
    }
  }

  lemma LongerHead(p: string, i: nat, k: nat, t: string, j: nat, front: string, u: string) returns (head: string)
    requires i <= k < |p| && t != "" && IsCutOff(p, k + 1, t[1..], j, front, u) && Literal(p, i) == Prepend([t[0]], Literal(p, k + 1))
    ensures IsCutOff(p, i, t, j, head, u)
  {
    head := [t[0]] + front;
    assert t == [t[0]] + t[1..];
    Assoc([t[0]], front, u);
  }

  // A token of an escaped text is a literal.
  lemma EscapedToken(p: string, i: nat, t: string, afterLiteral: bool, dotted: bool)
    requires t != "" && IsEscaped(p, i, t)
    ensures i < |p|
    ensures var text := Literal(p, i);
      Token(p, i, afterLiteral, dotted) == if text.Stuck? then Stuck(text.error) else Parsed(LiteralString(text.value), text.next)
  {
    var j := if NeedsEscape(t[0]) then i + 1 else i;
    EscapedChar(p, i, t, j);
  }

  // Behind the bracket there are the bounds, and the closing bracket with what follows it.
  lemma EscapedClosing(p: string, j: nat, u: string) returns (w: string)
    requires j < |p| && IsEscaped(p, j + 1, u) && RangeAt(p, j, ']').Range?
    ensures |w| < |u| && w != "" && w[0] == ']' && IsEscaped(p, RangeAt(p, j, ']').end, w)
  {
    var v := p[j + 1..];
    var a := DigitsEnd(p, j + 1);
    EscapeKeepsDigits(u, v);
    RestShift(p, j + 1);
    var x := u[DigitsEnd(u, 0)..];
    assert IsEscaped(p, a, x);
    EscapedDots(p, a, x);
    var y := x[2..];
    EscapeKeepsDigits(y, p[a + 2..]);
    RestShift(p, a + 2);
    w := y[DigitsEnd(y, 0)..];
    EscapeKeepsFirst(w);
    assert p[DigitsEnd(p, a + 2)..] == Escape(w);
  }

  lemma EscapedDots(p: string, a: nat, x: string)
    requires a + 1 < |p| && IsEscaped(p, a, x) && p[a] == '.' && p[a + 1] == '.'
    ensures |x| >= 2 && IsEscaped(p, a + 2, x[2..])
  {
    EscapeKeepsFirst(x);
    assert p[a..][0] == '.' && p[a..][1] == '.';
    assert p[a + 1..] == p[a..][1..] == Escape(x[1..]);
    EscapeKeepsFirst(x[1..]);
    assert p[a + 2..] == p[a + 1..][1..] && x[2..] == x[1..][1..];
  }

  // So every escaped text is a pattern.
  lemma {:induction false} EscapedCompiles(p: string, i: nat, t: string, afterLiteral: bool, dotted: bool)
    requires IsEscaped(p, i, t)
    ensures Compile(p, i, afterLiteral, dotted).Parsed? && Compile(p, i, afterLiteral, dotted).next == |p|
    decreases |t|
  {
    if t != "" {
      EscapedToken(p, i, t, afterLiteral, dotted);
      if HasBracketRange(t) {
        var j, head, u := EscapedCut(p, i, t);
        var w := EscapedClosing(p, j, u);
        EscapedCompiles(p, RangeAt(p, j, ']').end, w, false, dotted);
      } else {
        EscapedWhole(p, i, t);
      }
    }
  }

  // With a range there are a literal, the range and a literal that starts with the closing bracket.
  lemma EscapedRange(p: string, t: string, dotted: bool) returns (head: string, u: string, rest: seq<Elem>)
    requires p == Escape(t) && HasBracketRange(t)
    ensures t == head + u && OpensRange(u)
    ensures Compile(p, 0, false, dotted) == Parsed([LiteralString(head)] + rest, |p|) && IsClosedRange(rest)
  {
    assert p[0..] == p;
    var j;
    j, head, u := EscapedCut(p, 0, t);
    rest := EscapedSecond(p, j, u, dotted);
    EscapedToken(p, 0, t, false, dotted);
  }

  // A range, and a literal that starts with the closing bracket.
  predicate IsClosedRange(rest: seq<Elem>) {
    |rest| >= 2 && rest[0].NumRange? && rest[1].LiteralString? && rest[1].text != "" && rest[1].text[0] == ']'
  }

  lemma EscapedSecond(p: string, j: nat, u: string, dotted: bool) returns (rest: seq<Elem>)
    requires j < |p| && p[j] == '[' && IsEscaped(p, j + 1, u) && RangeAt(p, j, ']').Range?
    ensures Compile(p, j, true, dotted) == Parsed(rest, |p|) && IsClosedRange(rest)
  {
    var r := RangeAt(p, j, ']');
    var w := EscapedClosing(p, j, u);
    var third := EscapedThird(p, r.end, w, dotted);
    rest := [NumRange(r.from, r.to)] + third;
  }

  lemma EscapedThird(p: string, i: nat, w: string, dotted: bool) returns (rest: seq<Elem>)
    requires i <= |p| && w != "" && w[0] == ']' && IsEscaped(p, i, w)
    ensures Compile(p, i, false, dotted) == Parsed(rest, |p|)
    ensures |rest| >= 1 && rest[0].LiteralString? && rest[0].text != "" && rest[0].text[0] == ']'
  {
    EscapedToken(p, i, w, false, dotted);
    var k, opens := EscapedStep(p, i, w);
    EscapedCompiles(p, i, w, false, dotted);
    rest := Compile(p, i, false, dotted).value;
  }

  // That does not match the text itself, which has two dots where the closing bracket should be.
  lemma NotItself(t: string, head: string, u: string, rest: seq<Elem>)
    requires t == head + u && OpensRange(u) && IsClosedRange(rest)
    ensures !Denotes([LiteralString(head)] + rest, t, 0, |t|)
  {
    var elems, n := [LiteralString(head)] + rest, |head|;
    assert t[n..] == u && t[..n] == head;
    RestShift(t, n);
    assert u[DigitsEnd(u, 0)..][0] == '.';
    if Denotes(elems, t, 0, |t|) {
      var cuts :| IsCut(cuts, elems, t, 0, |t|);
      ClosesThere(elems, t, n, cuts);
    }
  }

  lemma ClosesThere(elems: seq<Elem>, t: string, n: nat, cuts: seq<nat>)
    requires n <= |t| && |elems| >= 3 && elems[0] == LiteralString(t[..n]) && elems[1].NumRange?
    requires elems[2].LiteralString? && elems[2].text != "" && IsCut(cuts, elems, t, 0, |t|)
    ensures DigitsEnd(t, n) < |t| && t[DigitsEnd(t, n)] == elems[2].text[0]
  {
    assert Spans(elems[0], t, cuts[0], cuts[1]) && Spans(elems[1], t, cuts[1], cuts[2]) && Spans(elems[2], t, cuts[2], cuts[3]);
    assert cuts[1] == |t[0..cuts[1]]| == n;
    NumberSpan(t, elems[1].from, elems[1].to, cuts[1], cuts[2]);
    assert t[cuts[2]..cuts[3]][0] == t[cuts[2]];
  }

  // A bracket that the documentation would have stand for itself starts a range all the same.
  lemma EscapedBracketStillOpens()
    ensures Compile("\\[1..2]", 0, false, true) == Parsed([LiteralString("["), NumRange(1, 2), LiteralString("]")], 7)
  {
    var p := "\\[1..2]";
    assert DigitsEnd(p, 2) == 3 && Number(p, 2, 3) == 1;
    assert DigitsEnd(p, 5) == 6 && Number(p, 5, 6) == 2;
    assert RangeAt(p, 1, ']') == Range(6, 1, 2);
    assert Literal(p, 0) == Parsed("[", 1);
    assert Token(p, 1, true, true) == Parsed(NumRange(1, 2), 6);
    assert Literal(p, 7) == Parsed("", 7);
    assert p[6] == ']' && "]" + "" == "]";
    assert Literal(p, 6) == Prepend("]", Literal(p, 7));
    assert Literal(p, 6) == Parsed("]", 7);
    assert Compile(p, 7, true, true) == Parsed([], 7);
    assert [LiteralString("]")] + [] == [LiteralString("]")];
    assert Compile(p, 6, false, true) == Parsed([LiteralString("]")], 7);
    assert Compile(p, 1, true, true) == Prepend([NumRange(1, 2)], Compile(p, 6, false, true));
    assert [NumRange(1, 2)] + [LiteralString("]")] == [NumRange(1, 2), LiteralString("]")];
    assert Token(p, 0, false, true) == Parsed(LiteralString("["), 1);
    assert [LiteralString("[")] + [NumRange(1, 2), LiteralString("]")] == [LiteralString("["), NumRange(1, 2), LiteralString("]")];
  }

  // With a backslash before every character the pattern always stands for the text itself.
  lemma FullyEscapedPattern(t: string, dotted: bool, line: string)
    ensures Compile(EscapeAll(t), 0, false, dotted).Parsed?
    ensures Denotes(Framed(Compile(EscapeAll(t), 0, false, dotted).value, true), line, 0, |line|) <==> line == t
  {
    OneLiteral(line, t);
    var p := EscapeAll(t);
    if t != "" {
      assert p[0..] == p + "";
      FullyEscapedLiteral(p, 0, t, "");
      assert p[0] == '\\';
      assert Compile(p, |p|, true, dotted) == Parsed([], |p|);
      assert [LiteralString(t)] + [] == [LiteralString(t)];
    }
  }

  lemma {:induction false} FullyEscapedLiteral(p: string, i: nat, t: string, rest: string)
    requires i <= |p| && p[i..] == EscapeAll(t) + rest && (rest == "" || IsSpecial(rest[0]))
    ensures Literal(p, i) == Parsed(t, i + 2 * |t|) && i + 2 * |t| <= |p|
    decreases |t|
  {
    if t == "" {
      assert i < |p| ==> p[i] == p[i..][0] == rest[0];
    } else {
      EscapedPair(p, i, t, rest);
      FullyEscapedLiteral(p, i + 2, t[1..], rest);
      assert DigitsEnd(p, i + 2) == i + 2;
      assert t == [t[0]] + t[1..];
    }
  }

  lemma EscapedPair(p: string, i: nat, t: string, rest: string)
    requires t != "" && i <= |p| && p[i..] == EscapeAll(t) + rest && (rest == "" || IsSpecial(rest[0]))
    ensures i + 2 <= |p| && p[i] == '\\' && p[i + 1] == t[0] && p[i + 2..] == EscapeAll(t[1..]) + rest
    ensures i + 2 < |p| ==> p[i + 2] == '\\' || IsSpecial(p[i + 2])
  {
    var front, u := EscapedFront(t, rest);
    Parts(p, i, front, u);
    EscapedFirst(t[1..], rest);
    assert p[i + 0] == front[0] && p[i + 1] == front[1];
  }

  lemma EscapedFront(t: string, rest: string) returns (front: string, u: string)
    requires t != ""
    ensures front == ['\\', t[0]] && u == EscapeAll(t[1..]) + rest && EscapeAll(t) + rest == front + u
  {
    front, u := ['\\', t[0]], EscapeAll(t[1..]) + rest;
    Assoc(front, EscapeAll(t[1..]), rest);
  }

  lemma EscapedFirst(t: string, rest: string)
    requires rest == "" || IsSpecial(rest[0])
    ensures var u := EscapeAll(t) + rest; u == "" || u[0] == '\\' || IsSpecial(u[0])
  {
  }

  // ---------- writing patterns ----------

  // The pairs of a set that can be written: "}" comes first if at all, and where it is not the
  // start of a wide range, no minus sign may follow that would make it one.
  predicate Pairs(chars: string, first: bool) {
    if chars == "" then !first
    else
      && |chars| >= 2 && (first || chars[0] != '}')
      && (chars[1] == '}' ==> chars[0] == '}' && (|chars| <= 2 || chars[2] != '-' || chars[2..] == "--"))
      && Pairs(chars[2..], false)
  }

  // The elements a pattern can have.
  predicate Writable(e: Elem, dotted: bool) {
    match e
    case LiteralString(t) => t != ""
    case AnyChar => !dotted
    case CommonChar => dotted
    case CharSet(chars) => Pairs(chars, true) && chars[0] != '^'
    case NegSet(chars) => Pairs(chars, true)
    case NumRange(from, to) => from >= -1 && to >= -1
    case AnySeq => true
    case CommonSeq => dotted
    case End => false
  }

  predicate MayFollow(e: Elem, f: Elem) {
    && !(e.LiteralString? && f.LiteralString?)
    && !(e.CommonSeq? && (f.CommonSeq? || f.AnySeq?))
  }

  predicate Canonical(elems: seq<Elem>, dotted: bool) {
    elems == [] ||
    (Writable(elems[0], dotted) && (|elems| > 1 ==> MayFollow(elems[0], elems[1])) && Canonical(elems[1..], dotted))
  }

  // A bound; -1, which is none, is left out.
  function Decimal(n: int): string
    requires n >= -1
  {
    if n < 0 then ""
    else (if n < 10 then "" else Decimal(n / 10)) + [(n % 10) as char + '0']
  }

  function Bounds(from: int, to: int): string
    requires from >= -1 && to >= -1
  {
    Decimal(from) + ".." + Decimal(to)
  }

  // Each pair is written as a wide range, where it can be.
  function ShowPairs(chars: string): string
    requires |chars| % 2 == 0
  {
    if chars == "" then ""
    else if chars[1] != '}' then [chars[0], '-', chars[1]] + ShowPairs(chars[2..])
    else if chars[2..] == "--" then [chars[0], '-']
    else [chars[0]] + ShowPairs(chars[2..])
  }

  lemma {:induction false} PairsEven(chars: string, first: bool)
    requires Pairs(chars, first)
    ensures |chars| % 2 == 0 && (first ==> chars != "")
  {
    if chars != "" {
      PairsEven(chars[2..], false);
    }
  }

  function ShowElem(e: Elem, dotted: bool): string
    requires Writable(e, dotted)
  {
    match e
    case LiteralString(t) => EscapeAll(t)
    case AnyChar => "?"
    case CommonChar => "?"
    case CharSet(chars) => PairsEven(chars, true); "{" + ShowPairs(chars) + "}"
    case NegSet(chars) => PairsEven(chars, true); "{^" + ShowPairs(chars) + "}"
    case NumRange(from, to) => "{" + Bounds(from, to) + "}"
    case AnySeq => "**"
    case CommonSeq => "*"
  }

  function Render(elems: seq<Elem>, dotted: bool): string
    requires Canonical(elems, dotted)
  {
    if elems == [] then "" else ShowElem(elems[0], dotted) + Render(elems[1..], dotted)
  }

  predicate IsDecimal(s: string, i: nat, j: nat, n: nat) {
    j == i + |Decimal(n)| <= |s| && s[i..j] == Decimal(n)
  }

  // What is written for a number is read as that number.
  lemma {:induction false} DecimalAt(s: string, i: nat, n: int, j: nat)
    requires n >= 0 && IsDecimal(s, i, j, n)
    ensures i < j && forall k {:trigger IsDigit(s[k])} :: i <= k < j ==> IsDigit(s[k])
    ensures Number(s, i, j) == n
    decreases n
  {
    var q := LastDigit(s, i, n, j - 1);
    if q > 0 {
      DecimalAt(s, i, q, j - 1);
    }
    assert Number(s, i, j - 1) == q;
  }

  lemma LastDigit(s: string, i: nat, n: int, j: nat) returns (q: nat)
    requires n >= 0 && IsDecimal(s, i, j + 1, n)
    ensures i <= j < |s|
    ensures IsDigit(s[j]) && n == q * 10 + (s[j] as int - '0' as int)
    ensures q == 0 ==> j == i
    ensures q > 0 ==> q < n && IsDecimal(s, i, j, q)
  {
    q := n / 10;
    assert Decimal(n) != "";
    var text := s[i..j + 1];
    assert s[j] == text[j - i];
    SliceOfSlice(s, i, j, j + 1);
  }

  lemma SliceOfSlice(s: string, i: nat, j: nat, k: nat)
    requires i <= j <= k <= |s|
    ensures s[i..k][..j - i] == s[i..j]
  {
  }

  lemma BoundAt(s: string, i: nat, n: int, j: nat)
    requires n >= -1 && j == i + |Decimal(n)| < |s| && s[i..j] == Decimal(n) && !IsDigit(s[j])
    ensures DigitsEnd(s, i) == j && Bound(s, i) == n
  {
    if n >= 0 {
      DecimalAt(s, i, n, j);
    }
    DigitsEndAt(s, i, j);
  }

  lemma DigitsEndAt(s: string, i: nat, j: nat)
    requires i <= j < |s| && !IsDigit(s[j]) && forall k {:trigger IsDigit(s[k])} :: i <= k < j ==> IsDigit(s[k])
    ensures DigitsEnd(s, i) == j
  {
    var d := DigitsEnd(s, i);
    assert d < |s| ==> !IsDigit(s[d]);
  }

  lemma BoundsAt(s: string, i: nat, from: int, to: int, a: nat)
    requires from >= -1 && to >= -1 && i <= |s| && s[i..] == Bounds(from, to) && a == i + |Decimal(from)|
    ensures a + 2 <= |s| && s[i..a] == Decimal(from) && s[a] == '.' && s[a + 1] == '.' && s[a + 2..] == Decimal(to)
  {
    var d, dots, e := Decimal(from), "..", Decimal(to);
    Assoc(d, dots, e);
    Parts(s, i, d, dots + e);
    Parts(s, a, dots, e);
    assert s[a + 0] == dots[0] && s[a + 1] == dots[1];
  }

  lemma RangeText(s: string, i: nat, from: int, to: int, closing: char, end: nat)
    requires from >= -1 && to >= -1 && i < end < |s| && s[i + 1..end] == Bounds(from, to)
    requires s[end] == closing && closing != '.' && !IsDigit(closing)
    ensures RangeAt(s, i, closing) == Range(end, from, to)
  {
    var a := i + 1 + |Decimal(from)|;
    BoundsAt(s[..end], i + 1, from, to, a);
    SliceOfFront(s, i + 1, a, end);
    SliceOfFront(s, a + 2, end, end);
    BoundAt(s, i + 1, from, a);
    BoundAt(s, a + 2, to, end);
    RangeIs(s, i, a, closing, end);
  }

  lemma SliceOfFront(s: string, a: nat, b: nat, end: nat)
    requires a <= b <= end <= |s|
    ensures s[..end][a..b] == s[a..b]
  {
  }

  lemma RangeIs(s: string, i: nat, a: nat, closing: char, end: nat)
    requires i < |s| && a == DigitsEnd(s, i + 1) && a + 2 <= |s| && end == DigitsEnd(s, a + 2) < |s|
    requires s[a] == '.' && s[a + 1] == '.'
    requires s[end] == closing && closing != '.'
    ensures RangeAt(s, i, closing) == Range(end, Bound(s, i + 1), Bound(s, a + 2))
  {
  }

  // What is written for a set is read as that set.
  lemma {:induction false} SetText(s: string, i: nat, chars: string, first: bool, end: nat)
    requires Pairs(chars, first) && |chars| % 2 == 0 && i <= end < |s| && s[i..end] == ShowPairs(chars) && s[end] == '}'
    ensures SetBody(s, i, first) == Parsed(chars, end + 1)
    decreases |chars|
  {
    var text := s[i..end];
    if chars != "" {
      assert s[i] == text[0] == chars[0];
      assert chars == [chars[0], chars[1]] + chars[2..];
      if chars[1] != '}' {
        assert s[i + 1] == text[1] == '-' && s[i + 2] == text[2] == chars[1];
        assert s[i + 3..end] == text[3..] == ShowPairs(chars[2..]);
        SetText(s, i + 3, chars[2..], false, end);
      } else if chars[2..] == "--" {
        assert s[i + 1] == text[1] == '-' && end == i + 2;
        assert SetBody(s, i + 2, false) == Parsed("", end + 1);
        assert SetBody(s, i + 1, false) == Parsed("--", end + 1) by {
          assert ['-', '-'] + "" == "--";
        }
      } else {
        assert s[i + 1..end] == text[1..] == ShowPairs(chars[2..]);
        NoMinus(s, i + 1, chars[2..], end);
        SetText(s, i + 1, chars[2..], false, end);
      }
    }
  }

  lemma NoMinus(s: string, i: nat, chars: string, end: nat)
    requires |chars| % 2 == 0 && i <= end < |s| && s[i..end] == ShowPairs(chars) && s[end] == '}'
    requires chars == "" || chars[0] != '-'
    ensures s[i] != '-'
  {
    if chars != "" {
      assert s[i] == s[i..end][0] == chars[0];
    }
  }

  // A set as it is written does not look like a numeric range.
  lemma SetNoRange(s: string, i: nat, chars: string, end: nat)
    requires chars != "" && |chars| % 2 == 0 && i + 1 < end < |s| && s[i + 1..end] == ShowPairs(chars) && s[end] == '}'
    requires chars[1] == '}' ==> chars[0] == '}'
    ensures RangeAt(s, i, '}') == NoRange && s[i + 1] == chars[0]
  {
    assert s[i + 1] == s[i + 1..end][0] == chars[0];
    if chars[1] != '}' {
      assert s[i + 2] == s[i + 1..end][1] == '-';
      assert DigitsEnd(s, i + 2) == i + 2;
      assert DigitsEnd(s, i + 1) <= i + 2;
    }
  }

  lemma SetPlace(s: string, i: nat, next: nat, open: string, body: string)
    requires i < next <= |s| && s[i..next] == open + body + "}"
    ensures next == i + |open| + |body| + 1 && s[next - 1] == '}' && s[i + |open|..next - 1] == body
    ensures forall k {:trigger open[k]} :: 0 <= k < |open| ==> s[i + k] == open[k]
  {
    var p := s[..next];
    assert p[i..] == open + (body + "}");
    Parts(p, i, open, body + "}");
    Parts(p, i + |open|, body, "}");
    assert forall k {:trigger open[k]} :: 0 <= k < |open| ==> s[i + k] == p[i + k];
    assert p[i + |open|..i + |open| + |body|] == s[i + |open|..next - 1];
  }

  lemma SetToken(s: string, i: nat, e: Elem, afterLiteral: bool, dotted: bool, next: nat)
    requires i < next <= |s| && Writable(e, dotted) && (e.CharSet? || e.NegSet?) && s[i..next] == ShowElem(e, dotted)
    ensures Token(s, i, afterLiteral, dotted) == Parsed(e, next)
  {
    PairsEven(e.setchars, true);
    if e.NegSet? {
      NegSetAt(s, i, e.setchars, next);
    } else {
      CharSetAt(s, i, e.setchars, next);
    }
  }

  lemma NegSetAt(s: string, i: nat, chars: string, next: nat)
    requires i < next <= |s| && Pairs(chars, true) && |chars| % 2 == 0 && s[i..next] == "{^" + ShowPairs(chars) + "}"
    ensures s[i] == '{' && RangeAt(s, i, '}') == NoRange && SetAt(s, i) == Parsed(NegSet(chars), next)
  {
    var open := "{^";
    SetPlace(s, i, next, open, ShowPairs(chars));
    assert s[i + 0] == open[0] && s[i + 1] == open[1];
    NoBound(s, i);
    SetText(s, i + 2, chars, true, next - 1);
    SetIs(s, i, chars, next);
  }

  lemma SetIs(s: string, i: nat, chars: string, next: nat)
    requires i + 1 < |s|
    requires SetBody(s, if s[i + 1] == '^' then i + 2 else i + 1, true) == Parsed(chars, next)
    ensures SetAt(s, i) == Parsed(if s[i + 1] == '^' then NegSet(chars) else CharSet(chars), next)
  {
  }

  lemma NoBound(s: string, i: nat)
    requires i + 1 < |s| && s[i + 1] != '.' && !IsDigit(s[i + 1])
    ensures RangeAt(s, i, '}') == NoRange
  {
  }

  lemma CharSetAt(s: string, i: nat, chars: string, next: nat)
    requires i < next <= |s| && Pairs(chars, true) && |chars| % 2 == 0 && chars[0] != '^'
    requires s[i..next] == "{" + ShowPairs(chars) + "}"
    ensures s[i] == '{' && RangeAt(s, i, '}') == NoRange && SetAt(s, i) == Parsed(CharSet(chars), next)
  {
    var open := "{";
    SetPlace(s, i, next, open, ShowPairs(chars));
    assert s[i + 0] == open[0];
    SetNoRange(s, i, chars, next - 1);
    CharSetBody(s, i, chars, next - 1);
  }

  lemma CharSetBody(s: string, i: nat, chars: string, end: nat)
    requires Pairs(chars, true) && |chars| % 2 == 0 && chars[0] != '^'
    requires i + 1 < end < |s| && s[i + 1..end] == ShowPairs(chars) && s[end] == '}' && s[i + 1] == chars[0]
    ensures SetAt(s, i) == Parsed(CharSet(chars), end + 1)
  {
    assert SetBody(s, i + 1, true) == Parsed(chars, end + 1) by { SetText(s, i + 1, chars, true, end); }
    SetIs(s, i, chars, end + 1);
  }

  lemma LiteralToken(s: string, i: nat, t: string, next: nat, afterLiteral: bool, dotted: bool)
    requires i < |s| && s[i] == '\\' && Literal(s, i) == Parsed(t, next)
    ensures Token(s, i, afterLiteral, dotted) == Parsed(LiteralString(t), next)
  {
  }

  lemma RangeToken(s: string, i: nat, from: int, to: int, afterLiteral: bool, dotted: bool, next: nat)
    requires i < next <= |s| && from >= -1 && to >= -1 && s[i..next] == "{" + Bounds(from, to) + "}"
    ensures Token(s, i, afterLiteral, dotted) == Parsed(NumRange(from, to), next)
  {
    var open := "{";
    SetPlace(s, i, next, open, Bounds(from, to));
    assert s[i + 0] == open[0];
    RangeText(s, i, from, to, '}', next - 1);
  }

  // What is written for an element is read as that element.
  lemma ElemToken(s: string, i: nat, e: Elem, rest: string, afterLiteral: bool, dotted: bool, next: nat)
    requires i <= |s| && Writable(e, dotted) && s[i..] == ShowElem(e, dotted) + rest && next == i + |ShowElem(e, dotted)|
    requires e.LiteralString? ==> rest == "" || IsSpecial(rest[0])
    requires e.CommonSeq? ==> rest == "" || rest[0] != '*'
    ensures i < next <= |s| && s[next..] == rest && Token(s, i, afterLiteral, dotted) == Parsed(e, next)
  {
    var text := ShowElem(e, dotted);
    Parts(s, i, text, rest);
    assert s[i + 0] == text[0];
    match e {
      case LiteralString(t) =>
        FullyEscapedLiteral(s, i, t, rest);
        EscapedPair(s, i, t, rest);
        LiteralToken(s, i, t, next, afterLiteral, dotted);
      case CharSet(_) =>
        SetToken(s, i, e, afterLiteral, dotted, next);
      case NegSet(_) =>
        SetToken(s, i, e, afterLiteral, dotted, next);
      case NumRange(from, to) =>
        RangeToken(s, i, from, to, afterLiteral, dotted, next);
      case AnySeq =>
        assert s[i + 1] == text[1];
      case _ =>
    }
  }

  lemma RenderFirst(elems: seq<Elem>, dotted: bool)
    requires Canonical(elems, dotted) && elems != []
    ensures Render(elems, dotted) != ""
    ensures !elems[0].LiteralString? ==> IsSpecial(Render(elems, dotted)[0])
    ensures !elems[0].AnySeq? && !elems[0].CommonSeq? ==> Render(elems, dotted)[0] != '*'
  {
  }

  // Every list of elements that can be written is read back from what is written.
  lemma {:induction false} RenderCompiles(elems: seq<Elem>, dotted: bool, s: string, i: nat, afterLiteral: bool)
    requires Canonical(elems, dotted) && i <= |s| && s[i..] == Render(elems, dotted)
    ensures Compile(s, i, afterLiteral, dotted) == Parsed(elems, |s|)
    decreases |elems|
  {
    if elems != [] {
      var e, tail := elems[0], elems[1..];
      if tail != [] {
        RenderFirst(tail, dotted);
      }
      var next := i + |ShowElem(e, dotted)|;
      ElemToken(s, i, e, Render(tail, dotted), afterLiteral, dotted, next);
      RenderCompiles(tail, dotted, s, next, e.LiteralString?);
      assert [e] + tail == elems;
    }
  }

  // Where a literal has ended.
  predicate LiteralEnds(s: string, i: nat) {
    i < |s| ==> IsSpecial(s[i]) || (s[i] == '[' && RangeAt(s, i, ']').Range?)
  }

  lemma {:induction false} LiteralEnd(s: string, i: nat)
    requires i <= |s| && Literal(s, i).Parsed?
    ensures LiteralEnds(s, Literal(s, i).next) && (i < |s| && !IsSpecial(s[i]) ==> Literal(s, i).value != "")
    decreases |s| - i
  {
    if i < |s| && !IsSpecial(s[i]) {
      var j := if s[i] == '\\' then i + 1 else i;
      if !(s[j] == '[' && RangeAt(s, j, ']').Range?) {
        LiteralEnd(s, j + 1);
      }
    }
  }

  lemma {:induction false} SetBodyPairs(s: string, i: nat, first: bool)
    requires i <= |s| && SetBody(s, i, first).Parsed?
    ensures Pairs(SetBody(s, i, first).value, first)
    ensures var chars := SetBody(s, i, first).value; chars != "" ==> i < |s| && chars[0] == s[i]
    decreases |s| - i
  {
    if !(s[i] == '}' && !first) {
      var chars := SetBody(s, i, first).value;
      var wide := i + 2 < |s| && s[i + 1] == '-' && s[i + 2] != '}';
      SetBodyPairs(s, if wide then i + 3 else i + 1, false);
      assert chars[2..] == SetBody(s, if wide then i + 3 else i + 1, false).value;
      if !wide && i + 1 < |s| && s[i + 1] == '-' {
        LastMinus(s, i + 1);
      }
    }
  }

  // A minus sign just before the end of a set.
  lemma LastMinus(s: string, i: nat)
    requires i < |s| && s[i] == '-' && (i + 1 < |s| ==> s[i + 1] == '}') && SetBody(s, i, false).Parsed?
    ensures SetBody(s, i, false).value == "--"
  {
    assert SetBody(s, i, false) == Prepend(['-', '-'], SetBody(s, i + 1, false));
    assert ['-', '-'] + "" == "--";
  }

  lemma TokenWritable(s: string, i: nat, afterLiteral: bool, dotted: bool)
    requires i < |s| && Token(s, i, afterLiteral, dotted).Parsed?
    ensures var t := Token(s, i, afterLiteral, dotted);
      && Writable(t.value, dotted)
      && (t.value.LiteralString? ==> LiteralEnds(s, t.next))
      && (t.value.CommonSeq? && t.next < |s| ==> s[t.next] != '*')
      && (afterLiteral && LiteralEnds(s, i) ==> !t.value.LiteralString?)
      && (s[i] != '*' ==> !t.value.CommonSeq? && !t.value.AnySeq?)
  {
    if s[i] == '{' {
      if RangeAt(s, i, '}') == NoRange {
        SetBodyPairs(s, if i + 1 < |s| && s[i + 1] == '^' then i + 2 else i + 1, true);
      }
    } else if s[i] != '?' && s[i] != '*' {
      if !(s[i] == '[' && afterLiteral && RangeAt(s, i, ']').Range?) {
        LiteralEnd(s, i);
      }
    }
  }

  // Conversely a pattern only has elements that can be written.
  lemma {:induction false} CompiledCanonical(s: string, i: nat, afterLiteral: bool, dotted: bool)
    requires i <= |s| && Compile(s, i, afterLiteral, dotted).Parsed?
    ensures var elems := Compile(s, i, afterLiteral, dotted).value;
      && Canonical(elems, dotted)
      && (elems != [] && afterLiteral && LiteralEnds(s, i) ==> !elems[0].LiteralString?)
      && (elems != [] && i < |s| && s[i] != '*' ==> !elems[0].CommonSeq? && !elems[0].AnySeq?)
    decreases |s| - i, if Stalls(s, i, afterLiteral) then 1 else 0
  {
    if i < |s| {
      var t := Token(s, i, afterLiteral, dotted);
      TokenWritable(s, i, afterLiteral, dotted);
      CompiledCanonical(s, t.next, t.value.LiteralString?, dotted);
      assert Compile(s, i, afterLiteral, dotted).value[1..] == Compile(s, t.next, t.value.LiteralString?, dotted).value;
    }
  }

  // So the canonical lists are exactly those that some pattern text stands for.
  lemma CanonicalExactly(elems: seq<Elem>, dotted: bool)
    ensures Canonical(elems, dotted) <==>
      exists p: string {:trigger Compile(p, 0, false, dotted)} :: Compile(p, 0, false, dotted) == Parsed(elems, |p|)
  {
    if Canonical(elems, dotted) {
      var p := Render(elems, dotted);
      assert p[0..] == p;
      RenderCompiles(elems, dotted, p, 0, false);
    }
    if p: string :| Compile(p, 0, false, dotted) == Parsed(elems, |p|) {
      CompiledCanonical(p, 0, false, dotted);
    }
  }

  // ---------- sets as they are documented ----------

  // A minus sign between two characters of a set makes a range of them, unless the character before it is
  // such a sign itself or the end of a range.
  predicate RangeSign(t: string, i: int)
    decreases i
  {
    0 < i < |t| - 1 && t[i] == '-' && !RangeSign(t, i - 1) && !RangeSign(t, i - 2)
  }

  // What is at i in a set stands for c: a range that encloses it, or the character itself outside ranges.
  predicate Means(t: string, i: nat, c: char)
    requires i < |t|
  {
    if RangeSign(t, i) then t[i - 1] <= c <= t[i + 1]
    else t[i] == c && !RangeSign(t, i - 1) && !RangeSign(t, i + 1)
  }

  predicate ListsFrom(t: string, p: nat, c: char) {
    exists i :: p <= i < |t| && Means(t, i, c)
  }

  // The text t between braces lists c.
  predicate Lists(t: string, c: char) {
    ListsFrom(t, 0, c)
  }

  lemma InSetMore(c: char, x: char, y: char, rest: string)
    requires |rest| % 2 == 0
    ensures InSet(c, [x, y] + rest) <==> x <= c <= y || InSet(c, rest)
  {
    var all := [x, y] + rest;
    if x <= c <= y {
      assert InPair(c, all, 0);
    }
    if InSet(c, rest) {
      var p :| 0 <= p < |rest| / 2 && InPair(c, rest, p);
      assert InPair(c, all, p + 1);
    }
    if InSet(c, all) {
      var p :| 0 <= p < |all| / 2 && InPair(c, all, p);
      assert p > 0 ==> InPair(c, rest, p - 1);
    }
  }

  // One character, or a range of three, from p on.
  lemma ListsSingle(t: string, p: nat, c: char)
    requires p < |t| && !RangeSign(t, p) && !RangeSign(t, p - 1) && !RangeSign(t, p + 1)
    ensures ListsFrom(t, p, c) <==> t[p] == c || ListsFrom(t, p + 1, c)
  {
    assert Means(t, p, c) <==> t[p] == c;
  }

  lemma ListsRange(t: string, p: nat, c: char)
    requires p + 2 < |t| && RangeSign(t, p + 1)
    ensures !RangeSign(t, p + 3) && !RangeSign(t, p + 2)
    ensures ListsFrom(t, p, c) <==> t[p] <= c <= t[p + 2] || ListsFrom(t, p + 3, c)
  {
    assert !Means(t, p, c) && !Means(t, p + 2, c);
    assert Means(t, p + 1, c) <==> t[p] <= c <= t[p + 2];
  }

  // From p on, where neither a range is under way, the set is read as it lists characters.
  lemma {:induction false} SetReads(s: string, i: nat, t: string, p: nat, end: nat)
    requires p <= |t| && t != "" && '}' !in t[1..] && end == i + |t| < |s| && s[i..end] == t && s[end] == '}'
    requires !RangeSign(t, p) && !RangeSign(t, p - 1)
    ensures var r := SetBody(s, i + p, p == 0);
      r.Parsed? && r.next == end + 1 && |r.value| % 2 == 0 && forall c :: InSet(c, r.value) <==> ListsFrom(t, p, c)
    decreases |t| - p
  {
    if p < |t| {
      SetPlaces(s, i, t, p, end);
      if RangeSign(t, p + 1) {
        ListsRange(t, p, t[p]);
        SetReads(s, i, t, p + 3, end);
        var rest := SetBody(s, i + p + 3, false).value;
        assert SetBody(s, i + p, p == 0) == Prepend([t[p], t[p + 2]], SetBody(s, i + p + 3, false));
        forall c ensures InSet(c, [t[p], t[p + 2]] + rest) <==> ListsFrom(t, p, c) {
          InSetMore(c, t[p], t[p + 2], rest);
          ListsRange(t, p, c);
        }
      } else {
        SetReads(s, i, t, p + 1, end);
        var rest := SetBody(s, i + p + 1, false).value;
        assert SetBody(s, i + p, p == 0) == Prepend([t[p], t[p]], SetBody(s, i + p + 1, false));
        forall c ensures InSet(c, [t[p], t[p]] + rest) <==> ListsFrom(t, p, c) {
          InSetMore(c, t[p], t[p], rest);
          ListsSingle(t, p, c);
        }
      }
    }
  }

  // The characters at p and behind, in the pattern and in the set.
  lemma SetPlaces(s: string, i: nat, t: string, p: nat, end: nat)
    requires p < |t| && '}' !in t[1..] && end == i + |t| < |s| && s[i..end] == t && s[end] == '}'
    requires !RangeSign(t, p) && !RangeSign(t, p - 1)
    ensures s[i + p] == t[p] && (p > 0 ==> t[p] != '}')
    ensures RangeSign(t, p + 1) <==> i + p + 2 < |s| && s[i + p + 1] == '-' && s[i + p + 2] != '}'
    ensures RangeSign(t, p + 1) ==> p + 2 < |t| && s[i + p + 2] == t[p + 2]
  {
    assert forall k :: 0 <= k < |t| ==> s[i + k] == s[i..end][k];
    assert forall k :: 1 <= k < |t| ==> t[k] == t[1..][k - 1];
  }

  lemma {:induction false} NeverClosed(s: string, i: nat, first: bool)
    requires i <= |s| && (forall k :: i < k < |s| ==> s[k] != '}') && (i < |s| && s[i] == '}' ==> first)
    ensures SetBody(s, i, first) == Stuck(Unmatched)
    decreases |s| - i
  {
    if i < |s| {
      var wide := i + 2 < |s| && s[i + 1] == '-' && s[i + 2] != '}';
      NeverClosed(s, if wide then i + 3 else i + 1, false);
    }
  }

  // The first closing brace from i on.
  function Closing(s: string, i: nat): (k: nat)
    requires i <= |s|
    ensures i <= k <= |s| && (k < |s| ==> s[k] == '}') && forall j :: i <= j < k ==> s[j] != '}'
    decreases |s| - i
  {
    if i == |s| || s[i] == '}' then i else Closing(s, i + 1)
  }

  // Any text behind an opening brace: the set ends at the first closing brace that is not its first
  // character, fails without one, and holds the characters that the text between lists.
  lemma SetMeaning(s: string, i: nat)
    requires i < |s|
    ensures var k, r := Closing(s, i + 1), SetBody(s, i, true);
      if k == |s| then r == Stuck(Unmatched)
      else r.Parsed? && r.next == k + 1 && forall c :: InSet(c, r.value) <==> Lists(s[i..k], c)
  {
    var k := Closing(s, i + 1);
    if k == |s| {
      NeverClosed(s, i, true);
    } else {
      var t := s[i..k];
      assert t[1..] == s[i + 1..k];
      SetReads(s, i, t, 0, k);
    }
  }

  // So a pattern that is a set matches the characters listed, or all others, one at a time.
  lemma BraceSet(p: string, t: string, negated: bool, dotted: bool, line: string)
    requires t != "" && '}' !in t[1..] && p == "{" + (if negated then "^" else "") + t + "}"
    requires (!negated ==> t[0] != '^') && RangeAt(p, 0, '}') == NoRange
    ensures Compile(p, 0, false, dotted).Parsed?
    ensures Denotes(Framed(Compile(p, 0, false, dotted).value, true), line, 0, |line|) <==>
      |line| == 1 && (Lists(t, line[0]) <==> !negated)
  {
    var i := if negated then 2 else 1;
    var e := SetElem(p, t, i, negated);
    OneChars(e, line);
    assert Compile(p, |p|, false, dotted) == Parsed([], |p|);
    assert [e] + [] == [e];
    assert Token(p, 0, false, dotted) == Parsed(e, |p|);
  }

  lemma SetElem(p: string, t: string, i: nat, negated: bool) returns (e: Elem)
    requires t != "" && '}' !in t[1..] && p == "{" + (if negated then "^" else "") + t + "}" && i == if negated then 2 else 1
    requires !negated ==> t[0] != '^'
    ensures p[0] == '{' && SetAt(p, 0) == Parsed(e, |p|) && (if negated then e.NegSet? else e.CharSet?)
    ensures forall c :: InSet(c, e.setchars) <==> Lists(t, c)
  {
    var k := i + |t|;
    assert p[i..k] == t && p[k] == '}' && p[i] == t[0];
    SetReads(p, i, t, 0, k);
    var chars := SetBody(p, i, true).value;
    e := if negated then NegSet(chars) else CharSet(chars);
  }

  lemma OneChars(e: Elem, line: string)
    requires e.CharSet? || e.NegSet?
    ensures Denotes([e], line, 0, |line|) <==> |line| == 1 && (InSet(line[0], e.setchars) <==> e.CharSet?)
  {
    if Denotes([e], line, 0, |line|) {
      var cuts :| IsCut(cuts, [e], line, 0, |line|);
      assert Spans([e][0], line, cuts[0], cuts[1]);
    }
    if |line| == 1 && (InSet(line[0], e.setchars) <==> e.CharSet?) {
      assert IsCut([0, 1], [e], line, 0, |line|);
    }
  }

  // ---------- ranges in brackets ----------

  // Three elements come from a range in brackets, the brackets being parts of literals.
  lemma BracketCompiles(p: string, from: int, to: int, dotted: bool)
    requires from >= -1 && to >= -1 && p == "[" + Bounds(from, to) + "]"
    ensures Compile(p, 0, false, dotted) == Parsed([LiteralString("["), NumRange(from, to), LiteralString("]")], |p|)
  {
    var n := |p| - 1;
    assert p[1..n] == Bounds(from, to) && p[n] == ']' && p[0] == '[';
    RangeText(p, 0, from, to, ']', n);
    assert Literal(p, n + 1) == Parsed("", n + 1);
    assert Literal(p, n) == Prepend("]", Literal(p, n + 1)) == Parsed("]", n + 1) by {
      assert "]" + "" == "]";
    }
    var third := [LiteralString("]")];
    assert Compile(p, n + 1, true, dotted) == Parsed([], n + 1);
    assert third + [] == third;
    assert Compile(p, n, false, dotted) == Parsed(third, n + 1);
    var second := [NumRange(from, to)] + third;
    assert Compile(p, 0, true, dotted) == Parsed(second, n + 1);
    assert Token(p, 0, false, dotted) == Parsed(LiteralString("["), 0);
    assert [LiteralString("[")] + second == [LiteralString("["), NumRange(from, to), LiteralString("]")];
  }

  // Such a pattern matches a number in brackets, within the bounds.
  lemma BracketPattern(p: string, from: int, to: int, dotted: bool, line: string)
    requires from >= -1 && to >= -1 && p == "[" + Bounds(from, to) + "]"
    ensures Compile(p, 0, false, dotted).Parsed?
    ensures Denotes(Framed(Compile(p, 0, false, dotted).value, true), line, 0, |line|) <==> IsBracketed(line, from, to)
  {
    BracketCompiles(p, from, to, dotted);
    BracketSpans(from, to, line);
  }

  predicate IsBracketed(line: string, from: int, to: int) {
    && |line| >= 3 && line[0] == '[' && line[|line| - 1] == ']'
    && (forall k {:trigger IsDigit(line[k])} :: 1 <= k < |line| - 1 ==> IsDigit(line[k]))
    && InRange(Number(line, 1, |line| - 1), from, to)
  }

  lemma BracketSpans(from: int, to: int, line: string)
    ensures Denotes([LiteralString("["), NumRange(from, to), LiteralString("]")], line, 0, |line|) <==> IsBracketed(line, from, to)
  {
    var elems := [LiteralString("["), NumRange(from, to), LiteralString("]")];
    if Denotes(elems, line, 0, |line|) {
      var cuts :| IsCut(cuts, elems, line, 0, |line|);
      assert Spans(elems[0], line, cuts[0], cuts[1]) && Spans(elems[1], line, cuts[1], cuts[2])
        && Spans(elems[2], line, cuts[2], cuts[3]);
      OneChar(line, 0, cuts[1], '[');
      OneChar(line, cuts[2], |line|, ']');
    }
    if IsBracketed(line, from, to) {
      BracketCut(from, to, line);
    }
  }

  lemma OneChar(line: string, a: nat, b: nat, c: char)
    requires a <= b <= |line| && line[a..b] == [c]
    ensures b == a + 1 && line[a] == c
  {
    assert |line[a..b]| == 1 && line[a..b][0] == line[a];
  }

  lemma BracketCut(from: int, to: int, line: string)
    requires IsBracketed(line, from, to)
    ensures Denotes([LiteralString("["), NumRange(from, to), LiteralString("]")], line, 0, |line|)
  {
    var elems, n := [LiteralString("["), NumRange(from, to), LiteralString("]")], |line| - 1;
    assert line[0..1] == "[" && line[n..|line|] == "]";
    assert Spans(elems[0], line, 0, 1) && Spans(elems[1], line, 1, n) && Spans(elems[2], line, n, |line|);
    assert IsCut([0, 1, n, |line|], elems, line, 0, |line|);
  }
}
