/** What the texts of patterns match, piece by piece (PatternMatcher.h, PatternMatcher.cc). */
module PatternTexts {
  import opened Prelude
  import opened PatternMatching

  // ---------- reading further on ----------

  // What is read behind n other characters.
  function Moved<T>(r: Parsed<T>, n: nat): Parsed<T> {
    if r.Stuck? then Stuck(r.error) else Parsed(r.value, n + r.next)
  }

  function MovedRange(r: Range, n: nat): Range {
    if r.NoRange? then NoRange else Range(n + r.end, r.from, r.to)
  }

  // The text q is what there is in s from n on.
  predicate Behind(s: string, n: nat, q: string) {
    |s| == n + |q| && forall k {:trigger q[k]} :: 0 <= k < |q| ==> q[k] == s[n + k]
  }

  lemma {:induction false} NumberMoved(s: string, n: nat, q: string, i: nat, j: nat)
    requires Behind(s, n, q) && i <= j <= |q| && forall k {:trigger IsDigit(q[k])} :: i <= k < j ==> IsDigit(q[k])
    ensures forall k {:trigger IsDigit(s[k])} :: n + i <= k < n + j ==> IsDigit(s[k])
    ensures Number(s, n + i, n + j) == Number(q, i, j)
    decreases j
  {
    assert forall k :: n + i <= k < n + j ==> s[k] == q[k - n];
    if i < j {
      NumberMoved(s, n, q, i, j - 1);
    }
  }

  lemma BoundMoved(s: string, n: nat, q: string, i: nat)
    requires Behind(s, n, q) && i <= |q|
    ensures Bound(s, n + i) == Bound(q, i) && DigitsEnd(s, n + i) == n + DigitsEnd(q, i)
  {
    assert s[n..] == q;
    DigitsEndShift(s, n, n + i);
    NumberMoved(s, n, q, i, DigitsEnd(q, i));
  }

  lemma RangeMoved(s: string, n: nat, q: string, i: nat, closing: char)
    requires Behind(s, n, q) && i < |q|
    ensures RangeAt(s, n + i, closing) == MovedRange(RangeAt(q, i, closing), n)
  {
    var a, from := DigitsEnd(q, i + 1), Bound(q, i + 1);
    var b, to := a, -1;
    if HasDotsAt(q, a) {
      b, to := DigitsEnd(q, a + 2), Bound(q, a + 2);
    }
    RangeCases(q, i, closing, a, b, from, to);
    MovedCases(s, n, q, i, closing, a, b, from, to);
    SameRange(s, n, q, closing, a, b, Range(b, from, to), RangeAt(q, i, closing), RangeAt(s, n + i, closing));
  }

  lemma MovedCases(s: string, n: nat, q: string, i: nat, closing: char, a: nat, b: nat, from: int, to: int)
    requires Behind(s, n, q) && i < |q| && a == DigitsEnd(q, i + 1) && from == Bound(q, i + 1)
    requires HasDotsAt(q, a) ==> b == DigitsEnd(q, a + 2) && to == Bound(q, a + 2)
    ensures RangeAt(s, n + i, closing) ==
      if HasDotsAt(s, n + a) && n + b < |s| && s[n + b] == closing && closing != '.' then Range(n + b, from, to) else NoRange
  {
    BoundMoved(s, n, q, i + 1);
    if HasDotsAt(q, a) {
      BoundMoved(s, n, q, a + 2);
    }
    DotsMoved(s, n, q, a);
    RangeCases(s, n + i, closing, n + a, n + b, from, to);
  }

  lemma DotsMoved(s: string, n: nat, q: string, a: nat)
    requires Behind(s, n, q)
    ensures HasDotsAt(s, n + a) <==> HasDotsAt(q, a)
  {
    assert a + 1 < |q| ==> s[n + a] == q[a] && s[n + (a + 1)] == q[a + 1];
  }

  lemma SameRange(s: string, n: nat, q: string, closing: char, a: nat, b: nat, range: Range, r: Range, r': Range)
    requires Behind(s, n, q) && a <= b && range.Range? && range.end == b
    requires r == if HasDotsAt(q, a) && b < |q| && q[b] == closing && closing != '.' then range else NoRange
    requires r' == if HasDotsAt(s, n + a) && n + b < |s| && s[n + b] == closing && closing != '.' then range.(end := n + b) else NoRange
    ensures r' == MovedRange(r, n)
  {
    assert a + 1 < |q| ==> s[n + a] == q[a] && s[n + (a + 1)] == q[a + 1];
    assert b < |q| ==> s[n + b] == q[b];
  }

  predicate HasDotsAt(s: string, a: nat) {
    a + 1 < |s| && s[a] == '.' && s[a + 1] == '.'
  }

  // A range by the places where its digits end.
  lemma RangeCases(s: string, i: nat, closing: char, a: nat, b: nat, from: int, to: int)
    requires i < |s| && a == DigitsEnd(s, i + 1) && from == Bound(s, i + 1)
    requires HasDotsAt(s, a) ==> b == DigitsEnd(s, a + 2) && to == Bound(s, a + 2)
    ensures RangeAt(s, i, closing) ==
      if HasDotsAt(s, a) && b < |s| && s[b] == closing && closing != '.' then Range(b, from, to) else NoRange
  {
  }

  lemma {:induction false} LiteralMoved(s: string, n: nat, q: string, i: nat)
    requires Behind(s, n, q) && i <= |q|
    ensures Literal(s, n + i) == Moved(Literal(q, i), n)
    decreases |q| - i
  {
    if i < |q| && !IsSpecial(q[i]) {
      var j := if q[i] == '\\' then i + 1 else i;
      if j < |q| {
        var m := j + 1;
        LiteralMoved(s, n, q, m);
        CharMoved(s, n, q, i, j, m);
      }
    }
  }

  lemma CharMoved(s: string, n: nat, q: string, i: nat, j: nat, m: nat)
    requires Behind(s, n, q) && i < |q| && !IsSpecial(q[i]) && j == (if q[i] == '\\' then i + 1 else i) && j < |q|
    requires m == j + 1 && Literal(s, n + m) == Moved(Literal(q, m), n)
    ensures Literal(s, n + i) == Moved(Literal(q, i), n)
  {
    var opens := OpensMoved(s, n, q, j);
    CaseMoved(s, n, q, i, j, m, opens);
    LiteralCase(q, i, j, m, opens);
    SameMoved(opens, q[j], Literal(s, n + m), Literal(q, m), j, n, Literal(s, n + i), Literal(q, i));
  }

  lemma CaseMoved(s: string, n: nat, q: string, i: nat, j: nat, m: nat, opens: bool)
    requires Behind(s, n, q) && i < |q| && !IsSpecial(q[i]) && j == (if q[i] == '\\' then i + 1 else i) && j < |q| && m == j + 1
    requires opens <==> s[n + j] == '[' && RangeAt(s, n + j, ']').Range?
    ensures Literal(s, n + i) == if opens then Parsed([q[j]], n + j) else Prepend([q[j]], Literal(s, n + m))
  {
    LiteralCase(s, n + i, n + j, n + m, opens);
  }

  lemma LiteralCase(s: string, i: nat, j: nat, m: nat, opens: bool)
    requires i < |s| && !IsSpecial(s[i]) && j == (if s[i] == '\\' then i + 1 else i) && j < |s| && m == j + 1
    requires opens <==> s[j] == '[' && RangeAt(s, j, ']').Range?
    ensures Literal(s, i) == if opens then Parsed([s[j]], j) else Prepend([s[j]], Literal(s, m))
  {
    LiteralStep(s, i, j);
  }

  lemma OpensMoved(s: string, n: nat, q: string, j: nat) returns (opens: bool)
    requires Behind(s, n, q) && j < |q|
    ensures opens <==> q[j] == '[' && RangeAt(q, j, ']').Range?
    ensures opens <==> s[n + j] == '[' && RangeAt(s, n + j, ']').Range?
  {
    RangeMoved(s, n, q, j, ']');
    opens := q[j] == '[' && RangeAt(q, j, ']').Range?;
  }

  lemma SameMoved(opens: bool, c: char, rest: Parsed<string>, rest': Parsed<string>, j: nat, n: nat,
                  r: Parsed<string>, r': Parsed<string>)
    requires rest == Moved(rest', n)
    requires r == if opens then Parsed([c], n + j) else Prepend([c], rest)
    requires r' == if opens then Parsed([c], j) else Prepend([c], rest')
    ensures r == Moved(r', n)
  {
  }

  lemma {:induction false} SetBodyMoved(s: string, n: nat, q: string, i: nat, first: bool)
    requires Behind(s, n, q) && i <= |q|
    ensures SetBody(s, n + i, first) == Moved(SetBody(q, i, first), n)
    decreases |q| - i
  {
    if i < |q| && !(q[i] == '}' && !first) {
      var wide := i + 2 < |q| && q[i + 1] == '-' && q[i + 2] != '}';
      SetBodyMoved(s, n, q, if wide then i + 3 else i + 1, false);
    }
  }

  lemma SetMoved(s: string, n: nat, q: string, i: nat)
    requires Behind(s, n, q) && i < |q|
    ensures SetAt(s, n + i) == Moved(SetAt(q, i), n)
  {
    SetBodyMoved(s, n, q, if i + 1 < |q| && q[i + 1] == '^' then i + 2 else i + 1, true);
  }

  lemma TokenMoved(s: string, n: nat, q: string, i: nat, afterLiteral: bool, dotted: bool)
    requires Behind(s, n, q) && i < |q|
    ensures Token(s, n + i, afterLiteral, dotted) == Moved(Token(q, i, afterLiteral, dotted), n)
  {
    if q[i] == '?' || q[i] == '*' {
    } else if q[i] == '{' {
      RangeMoved(s, n, q, i, '}');
      SetMoved(s, n, q, i);
    } else {
      RangeMoved(s, n, q, i, ']');
      LiteralMoved(s, n, q, i);
    }
  }

  // A pattern text is read the same behind whatever characters.
  lemma {:induction false} CompileMoved(s: string, n: nat, q: string, i: nat, afterLiteral: bool, dotted: bool)
    requires Behind(s, n, q) && i <= |q|
    ensures Compile(s, n + i, afterLiteral, dotted) == Moved(Compile(q, i, afterLiteral, dotted), n)
    decreases |q| - i, if Stalls(q, i, afterLiteral) then 1 else 0
  {
    if i < |q| {
      var t := Token(q, i, afterLiteral, dotted);
      if t.Parsed? {
        CompileMoved(s, n, q, t.next, t.value.LiteralString?, dotted);
      }
      CompileOneMoved(s, n, q, i, t, afterLiteral, dotted);
    }
  }

  lemma CompileOneMoved(s: string, n: nat, q: string, i: nat, t: Parsed<Elem>, afterLiteral: bool, dotted: bool)
    requires Behind(s, n, q) && i < |q| && t == Token(q, i, afterLiteral, dotted)
    requires t.Parsed? ==>
      Compile(s, n + t.next, t.value.LiteralString?, dotted) == Moved(Compile(q, t.next, t.value.LiteralString?, dotted), n)
    ensures Compile(s, n + i, afterLiteral, dotted) == Moved(Compile(q, i, afterLiteral, dotted), n)
  {
    CompileStep(q, i, t, afterLiteral, dotted);
    TokenMoved(s, n, q, i, afterLiteral, dotted);
    MovedStep(s, n, n + i, t, afterLiteral, dotted);
    if t.Parsed? {
      var whole, whole' := Compile(s, n + i, afterLiteral, dotted), Compile(q, i, afterLiteral, dotted);
      var rest, rest' := Compile(s, n + t.next, t.value.LiteralString?, dotted), Compile(q, t.next, t.value.LiteralString?, dotted);
      SamePrepended([t.value], rest, rest', n, whole, whole');
    }
  }

  lemma MovedStep(s: string, n: nat, i: nat, t: Parsed<Elem>, afterLiteral: bool, dotted: bool)
    requires i < |s| && Token(s, i, afterLiteral, dotted) == Moved(t, n)
    ensures t.Parsed? ==> n + t.next <= |s|
    ensures Compile(s, i, afterLiteral, dotted) ==
      if t.Stuck? then Stuck(t.error) else Prepend([t.value], Compile(s, n + t.next, t.value.LiteralString?, dotted))
  {
    CompileStep(s, i, Moved(t, n), afterLiteral, dotted);
  }

  lemma SamePrepended(e: seq<Elem>, rest: Parsed<seq<Elem>>, rest': Parsed<seq<Elem>>, n: nat,
                      whole: Parsed<seq<Elem>>, whole': Parsed<seq<Elem>>)
    requires rest == Moved(rest', n) && whole == Prepend(e, rest) && whole' == Prepend(e, rest')
    ensures whole == Moved(whole', n)
  {
  }

  lemma CompileStep(s: string, i: nat, t: Parsed<Elem>, afterLiteral: bool, dotted: bool)
    requires i < |s| && t == Token(s, i, afterLiteral, dotted)
    ensures Compile(s, i, afterLiteral, dotted) ==
      if t.Stuck? then Stuck(t.error) else Prepend([t.value], Compile(s, t.next, t.value.LiteralString?, dotted))
  {
  }

  // ---------- matching further on ----------

  lemma SpansMoved(e: Elem, s: string, n: nat, q: string, a: nat, b: nat)
    requires Behind(s, n, q)
    ensures Spans(e, s, n + a, n + b) <==> Spans(e, q, a, b)
  {
    if a <= b <= |q| {
      assert s[n + a..n + b] == q[a..b];
      match e {
        case NumRange(_, _) =>
          DigitsMoved(s, n, q, a, b);
        case CommonSeq =>
          assert forall k :: n + a <= k < n + b ==> s[k] == q[k - n];
        case _ =>
      }
    }
  }

  ghost predicate AllDigits(s: string, a: nat, b: nat)
    requires a <= b <= |s|
  {
    forall k {:trigger IsDigit(s[k])} :: a <= k < b ==> IsDigit(s[k])
  }

  lemma DigitsMoved(s: string, n: nat, q: string, a: nat, b: nat)
    requires Behind(s, n, q) && a <= b <= |q|
    ensures AllDigits(s, n + a, n + b) <==> AllDigits(q, a, b)
    ensures AllDigits(q, a, b) ==> Number(s, n + a, n + b) == Number(q, a, b)
  {
    if AllDigits(q, a, b) {
      NumberMoved(s, n, q, a, b);
    } else {
      var k :| a <= k < b && !IsDigit(q[k]);
      assert !IsDigit(s[n + k]);
    }
  }

  lemma {:induction false} ReadsMoved(elems: seq<Elem>, k: nat, s: string, n: nat, q: string, i: nat, z: nat)
    requires k <= |elems| && Behind(s, n, q)
    ensures Reads(elems, k, s, n + i, n + z) <==> Reads(elems, k, q, i, z)
    decreases |elems| - k
  {
    if k < |elems| {
      if Reads(elems, k, s, n + i, n + z) {
        var j: nat :| Spans(elems[k], s, n + i, j) && Reads(elems, k + 1, s, j, n + z);
        ReadsTo(elems, k, s, n, q, i, z, j - n);
      }
      if Reads(elems, k, q, i, z) {
        var j: nat :| Spans(elems[k], q, i, j) && Reads(elems, k + 1, q, j, z);
        ReadsTo(elems, k, s, n, q, i, z, j);
      }
    }
  }

  lemma {:induction false} ReadsTo(elems: seq<Elem>, k: nat, s: string, n: nat, q: string, i: nat, z: nat, j: nat)
    requires k < |elems| && Behind(s, n, q)
    ensures Spans(elems[k], s, n + i, n + j) <==> Spans(elems[k], q, i, j)
    ensures Reads(elems, k + 1, s, n + j, n + z) <==> Reads(elems, k + 1, q, j, z)
    decreases |elems| - k, 0
  {
    SpansMoved(elems[k], s, n, q, i, j);
    ReadsMoved(elems, k + 1, s, n, q, j, z);
  }

  // The first element takes some part of the line, and the others match what is left.
  lemma DenotesFirst(e: Elem, tail: seq<Elem>, line: string)
    ensures Denotes([e] + tail, line, 0, |line|) <==>
      exists j: nat {:trigger Spans(e, line, 0, j)} :: Spans(e, line, 0, j) && Denotes(tail, line[j..], 0, |line| - j)
  {
    var all := [e] + tail;
    assert all[0..] == all && all[1..] == tail;
    ReadsMeansCuts(all, 0, line, 0, |line|);
    forall j: nat | Spans(e, line, 0, j)
      ensures Reads(all, 1, line, j, |line|) <==> Denotes(tail, line[j..], 0, |line| - j)
    {
      ReadsMoved(all, 1, line, j, line[j..], 0, |line| - j);
      ReadsMeansCuts(all, 1, line[j..], 0, |line| - j);
    }
    if Reads(all, 0, line, 0, |line|) {
      var j: nat :| Spans(all[0], line, 0, j) && Reads(all, 1, line, j, |line|);
      assert Spans(e, line, 0, j);
    }
    if j: nat :| Spans(e, line, 0, j) && Denotes(tail, line[j..], 0, |line| - j) {
      assert Spans(all[0], line, 0, j) && Reads(all, 1, line, j, |line|);
    }
  }

  // ---------- matching a text ----------

  // The line matches the pattern text p, which has a literal before it or not.
  ghost predicate MatchesAfter(p: string, afterLiteral: bool, dotted: bool, line: string) {
    Compile(p, 0, afterLiteral, dotted).Parsed? && Denotes(Compile(p, 0, afterLiteral, dotted).value, line, 0, |line|)
  }

  // The line as a whole matches the pattern text p.
  ghost predicate Match(p: string, dotted: bool, line: string) {
    MatchesAfter(p, false, dotted, line)
  }

  lemma EmptyText(afterLiteral: bool, dotted: bool, line: string)
    ensures MatchesAfter("", afterLiteral, dotted, line) <==> line == ""
  {
    OneLiteral(line, "");
  }

  lemma FirstCompiled(p: string, e: Elem, n: nat, afterLiteral: bool, dotted: bool)
    requires p != "" && Token(p, 0, afterLiteral, dotted) == Parsed(e, n)
    ensures Compile(p, 0, afterLiteral, dotted) == Prepend([e], Moved(Compile(p[n..], 0, e.LiteralString?, dotted), n))
  {
    CompileStep(p, 0, Parsed(e, n), afterLiteral, dotted);
    CompileMoved(p, n, p[n..], 0, e.LiteralString?, dotted);
  }

  // The first token takes some part of the line, and the text behind it matches what is left.
  lemma FirstToken(p: string, e: Elem, n: nat, afterLiteral: bool, dotted: bool, line: string)
    requires p != "" && Token(p, 0, afterLiteral, dotted) == Parsed(e, n)
    ensures MatchesAfter(p, afterLiteral, dotted, line) <==>
      exists j: nat {:trigger Spans(e, line, 0, j)} :: Spans(e, line, 0, j) && MatchesAfter(p[n..], e.LiteralString?, dotted, line[j..])
  {
    FirstCompiled(p, e, n, afterLiteral, dotted);
    var rest := Compile(p[n..], 0, e.LiteralString?, dotted);
    FirstDenoted(e, n, Compile(p, 0, afterLiteral, dotted), rest, line);
  }

  lemma FirstDenoted(e: Elem, n: nat, whole: Parsed<seq<Elem>>, rest: Parsed<seq<Elem>>, line: string)
    requires whole == Prepend([e], Moved(rest, n))
    ensures whole.Parsed? && Denotes(whole.value, line, 0, |line|) <==>
      exists j: nat {:trigger Spans(e, line, 0, j)} :: Spans(e, line, 0, j) && rest.Parsed? && Denotes(rest.value, line[j..], 0, |line[j..]|)
  {
    if rest.Parsed? {
      DenotesFirst(e, rest.value, line);
    }
  }

  // This is what a new matcher over the whole line finds out.
  method MatchOnce(p: string, dotted: bool, line: string) returns (compiled: bool, r: bool)
    ensures compiled <==> Compile(p, 0, false, dotted).Parsed?
    ensures r <==> Match(p, dotted, line)
  {
    var m := new PatternMatcher();
    var outcome := m.SetPattern(p, dotted, true);
    compiled, r := outcome == Ok, false;
    if compiled {
      r := m.Matches(line);
    }
  }

  // Only an opening bracket depends on the literal before it.
  lemma FlagOnly(p: string, dotted: bool, line: string)
    requires p == "" || p[0] != '['
    ensures Compile(p, 0, true, dotted) == Compile(p, 0, false, dotted)
    ensures MatchesAfter(p, true, dotted, line) <==> Match(p, dotted, line)
  {
  }

  // ---------- wildcards ----------

  lemma QuestionText(rest: string, dotted: bool, line: string)
    ensures Match("?" + rest, dotted, line) <==>
      line != "" && (dotted ==> line[0] != '.') && Match(rest, dotted, line[1..])
  {
    var p, e := "?" + rest, if dotted then CommonChar else AnyChar;
    assert p[1..] == rest;
    FirstToken(p, e, 1, false, dotted, line);
    assert line != "" && (dotted ==> line[0] != '.') ==> Spans(e, line, 0, 1);
  }

  // "**" takes any part of the line, and "*", in dotted patterns, any without a dot.
  lemma SeqText(rest: string, dotted: bool, line: string)
    ensures Match("**" + rest, dotted, line) <==>
      exists j {:trigger line[j..]} :: 0 <= j <= |line| && Match(rest, dotted, line[j..])
  {
    var p := "**" + rest;
    assert p[2..] == rest;
    FirstToken(p, AnySeq, 2, false, dotted, line);
    if Match(p, dotted, line) {
      var j: nat :| Spans(AnySeq, line, 0, j) && Match(rest, dotted, line[j..]);
    }
    if j :| 0 <= j <= |line| && Match(rest, dotted, line[j..]) {
      assert Spans(AnySeq, line, 0, j);
    }
  }

  lemma StarText(rest: string, dotted: bool, line: string)
    requires rest == "" || rest[0] != '*'
    ensures Match("*" + rest, dotted, line) <==>
      exists j {:trigger line[j..]} :: 0 <= j <= |line| && (dotted ==> '.' !in line[..j]) && Match(rest, dotted, line[j..])
  {
    var p, e := "*" + rest, if dotted then CommonSeq else AnySeq;
    assert p[1..] == rest;
    FirstToken(p, e, 1, false, dotted, line);
    forall j | 0 <= j <= |line| ensures Spans(e, line, 0, j) <==> (dotted ==> '.' !in line[..j]) {
      assert forall k :: 0 <= k < j ==> line[..j][k] == line[k];
    }
    if Match(p, dotted, line) {
      var j: nat :| Spans(e, line, 0, j) && Match(rest, dotted, line[j..]);
    }
    if j :| 0 <= j <= |line| && (dotted ==> '.' !in line[..j]) && Match(rest, dotted, line[j..]) {
      assert Spans(e, line, 0, j);
    }
  }

  // ---------- literal text ----------

  // Text that can stand for text: what means something else has a backslash before it, as anything may.
  predicate Spelled(w: string) {
    w == "" ||
      if w[0] == '\\' then |w| >= 2 && Spelled(w[2..])
      else w[0] != '?' && w[0] != '*' && w[0] != '{' && Spelled(w[1..])
  }

  // The text without these backslashes.
  function Unescaped(w: string): string
    requires Spelled(w)
  {
    if w == "" then "" else if w[0] == '\\' then [w[1]] + Unescaped(w[2..]) else [w[0]] + Unescaped(w[1..])
  }

  // And there is no numeric range in brackets in it.
  predicate Ordinary(w: string) {
    Spelled(w) && !HasBracketRange(w)
  }

  // Text without special characters is its own spelling, and any text has one.
  lemma {:induction false} PlainSpelled(t: string)
    requires '?' !in t && '*' !in t && '{' !in t && '\\' !in t
    ensures Spelled(t) && Unescaped(t) == t
  {
    if t != "" {
      assert t[0] in t && t == [t[0]] + t[1..];
      PlainSpelled(t[1..]);
    }
  }

  lemma {:induction false} EscapeSpelled(t: string)
    ensures Spelled(Escape(t)) && Unescaped(Escape(t)) == t
  {
    if t != "" {
      EscapeSpelled(t[1..]);
      var w := Escape(t);
      assert w[if NeedsEscape(t[0]) then 2 else 1..] == Escape(t[1..]) && t == [t[0]] + t[1..];
    }
  }

  // Behind such a text no numeric range that starts in it can go on.
  predicate Stops(rest: string) {
    rest == "" || !(rest[0] == '.' || rest[0] == ']' || IsDigit(rest[0]))
  }

  // What ends such a text: the end of the pattern, or a wildcard, set or range.
  predicate Breaks(rest: string) {
    rest == "" || rest[0] == '?' || rest[0] == '*' || rest[0] == '{'
  }

  lemma {:induction false} DigitsInFront(u: string, rest: string)
    requires Stops(rest)
    ensures DigitsEnd(u + rest, 0) == DigitsEnd(u, 0) && (u + rest)[DigitsEnd(u, 0)..] == u[DigitsEnd(u, 0)..] + rest
    decreases |u|
  {
    if u != "" && IsDigit(u[0]) {
      assert (u + rest)[1..] == u[1..] + rest;
      DigitsInFront(u[1..], rest);
      DigitsEndShift(u, 1, 1);
      DigitsEndShift(u + rest, 1, 1);
    }
  }

  // No range reaches beyond the text.
  lemma RangeInFront(u: string, rest: string)
    requires Stops(rest)
    ensures OpensRange(u + rest) <==> OpensRange(u)
  {
    DigitsInFront(u, rest);
    var v := u[DigitsEnd(u, 0)..];
    if |v| >= 2 {
      assert (v + rest)[2..] == v[2..] + rest;
      DigitsInFront(v[2..], rest);
    }
  }

  lemma {:induction false} LiteralInFront(w: string, rest: string, r: Parsed<string>)
    requires Ordinary(w) && Stops(rest) && r == Literal(rest, 0)
    ensures Literal(w + rest, 0) == Lengthened(Unescaped(w), |w|, r)
    decreases |w|
  {
    if w == "" {
      assert w + rest == rest && (r.Parsed? ==> "" + r.value == r.value);
    } else {
      var k := if w[0] == '\\' then 2 else 1;
      NoRangeBehind(w, k);
      LiteralInFront(w[k..], rest, r);
      CharInFront(w, k, w[k..], Unescaped(w[k..]), rest, r);
    }
  }

  lemma NoRangeBehind(w: string, k: nat)
    requires 1 <= k <= |w| && k <= 2 && !HasBracketRange(w)
    ensures !HasBracketRange(w[k..]) && !(w[k - 1] == '[' && OpensRange(w[k..]))
  {
    if k == 2 {
      assert w[1..][1..] == w[2..];
    }
  }

  // What is read when n characters that stand for t come before r.
  function Lengthened(t: string, n: nat, r: Parsed<string>): Parsed<string> {
    if r.Stuck? then r else Parsed(t + r.value, n + r.next)
  }

  // One character, with its backslash if that is there.
  lemma CharInFront(w: string, k: nat, u: string, t: string, rest: string, r: Parsed<string>)
    requires w != "" && !IsSpecial(w[0]) && k == (if w[0] == '\\' then 2 else 1) && k <= |w| && u == w[k..] && Stops(rest)
    requires !(w[k - 1] == '[' && OpensRange(u)) && Literal(u + rest, 0) == Lengthened(t, |u|, r)
    ensures Literal(w + rest, 0) == Lengthened([w[k - 1]] + t, |w|, r)
  {
    DropInFront(w, rest, k);
    CharRead(w + rest, k, u + rest, u, rest, Lengthened(t, |u|, r));
    LongerByOne(w[k - 1], t, |u|, k, r);
  }

  lemma DropInFront(a: string, b: string, k: nat)
    requires k <= |a|
    ensures (a + b)[k..] == a[k..] + b
  {
  }

  lemma CharRead(p: string, k: nat, q: string, u: string, rest: string, r: Parsed<string>)
    requires p != "" && !IsSpecial(p[0]) && k == (if p[0] == '\\' then 2 else 1) && k <= |p| && p[k..] == q == u + rest
    requires !(p[k - 1] == '[' && OpensRange(u)) && Stops(rest) && Literal(q, 0) == r
    ensures Literal(p, 0) == Prepend([p[k - 1]], Moved(r, k))
  {
    RangeBehind(p, k - 1, q, u, rest);
    BehindFirst(p, k, q, r);
    LiteralCase(p, 0, k - 1, k, false);
  }

  lemma LongerByOne(c: char, t: string, n: nat, k: nat, r: Parsed<string>)
    ensures Prepend([c], Moved(Lengthened(t, n, r), k)) == Lengthened([c] + t, k + n, r)
  {
    if r.Parsed? {
      assert [c] + (t + r.value) == ([c] + t) + r.value;
    }
  }

  lemma BehindFirst(p: string, k: nat, q: string, r: Parsed<string>)
    requires k <= |p| && p[k..] == q && Literal(q, 0) == r
    ensures Literal(p, k) == Moved(r, k)
  {
    assert Behind(p, k, q);
    LiteralMoved(p, k, q, 0);
  }

  lemma RangeBehind(p: string, j: nat, q: string, u: string, rest: string)
    requires j < |p| && Stops(rest) && p[j + 1..] == q && q == u + rest
    ensures RangeAt(p, j, ']').Range? <==> OpensRange(u)
  {
    RangeAtMeaning(p, j);
    RangeInFront(u, rest);
  }

  // A first token that is a literal matches its text.
  lemma LiteralFirst(p: string, t: string, n: nat, dotted: bool, line: string)
    requires p != "" && Token(p, 0, false, dotted) == Parsed(LiteralString(t), n)
    ensures Match(p, dotted, line) <==> t <= line && MatchesAfter(p[n..], true, dotted, line[|t|..])
  {
    var e := LiteralString(t);
    FirstToken(p, e, n, false, dotted, line);
    if t <= line {
      assert line[0..|t|] == t;
      assert Spans(e, line, 0, |t|);
    }
    forall j: nat | Spans(e, line, 0, j) ensures j == |t| && t <= line {
      assert |line[0..j]| == j;
    }
  }

  // Such a text becomes a literal of its own in front of what follows, and matches what it stands for.
  lemma LiteralText(w: string, rest: string, dotted: bool, line: string)
    requires w != "" && Ordinary(w) && Breaks(rest)
    ensures Compile(w + rest, 0, false, dotted) == Prepend([LiteralString(Unescaped(w))], Moved(Compile(rest, 0, false, dotted), |w|))
    ensures Match(w + rest, dotted, line) <==> Unescaped(w) <= line && Match(rest, dotted, line[|Unescaped(w)|..])
  {
    var p, t := w + rest, Unescaped(w);
    LiteralTaken(w, rest, dotted);
    FirstCompiled(p, LiteralString(t), |w|, false, dotted);
    LiteralFirst(p, t, |w|, dotted, line);
    FlagOnly(rest, dotted, line);
    if t <= line {
      FlagOnly(rest, dotted, line[|t|..]);
    }
  }

  lemma LiteralTaken(w: string, rest: string, dotted: bool)
    requires w != "" && Ordinary(w) && Breaks(rest)
    ensures Token(w + rest, 0, false, dotted) == Parsed(LiteralString(Unescaped(w)), |w|) && (w + rest)[|w|..] == rest
  {
    LiteralInFront(w, rest, Literal(rest, 0));
    assert Unescaped(w) + "" == Unescaped(w);
  }

  // The patterns "w*", "**w" and "w?v" for such texts.
  lemma StarBehind(w: string, dotted: bool, line: string)
    requires w != "" && Ordinary(w)
    ensures Match(w + "*", dotted, line) <==> Unescaped(w) <= line && (dotted ==> '.' !in line[|Unescaped(w)|..])
  {
    var t := Unescaped(w);
    LiteralText(w, "*", dotted, line);
    if t <= line {
      var left := line[|t|..];
      assert "*" + "" == "*";
      StarText("", dotted, left);
      forall j | 0 <= j <= |left| ensures Match("", dotted, left[j..]) <==> j == |left| {
        EmptyText(false, dotted, left[j..]);
      }
      assert left[..|left|] == left && left[|left|..] == "";
    }
  }

  lemma StarsInFront(w: string, dotted: bool, line: string)
    requires Ordinary(w)
    ensures Match("**" + w, dotted, line) <==> EndsWith(line, Unescaped(w))
  {
    var t := Unescaped(w);
    SeqText(w, dotted, line);
    forall j | 0 <= j <= |line| ensures Match(w, dotted, line[j..]) <==> line[j..] == t {
      WholeText(w, dotted, line[j..]);
    }
    if EndsWith(line, t) {
      assert Match(w, dotted, line[|line| - |t|..]);
    }
  }

  lemma WholeText(w: string, dotted: bool, line: string)
    requires Ordinary(w)
    ensures Match(w, dotted, line) <==> line == Unescaped(w)
  {
    if w == "" {
      EmptyText(false, dotted, line);
    } else {
      assert w + "" == w;
      LiteralText(w, "", dotted, line);
      if Unescaped(w) <= line {
        EmptyText(false, dotted, line[|Unescaped(w)|..]);
      }
    }
  }

  lemma QuestionBetween(w: string, v: string, dotted: bool, line: string)
    requires w != "" && Ordinary(w) && Ordinary(v)
    ensures var t, u := Unescaped(w), Unescaped(v);
      Match(w + ("?" + v), dotted, line) <==>
        |line| == |t| + 1 + |u| && t <= line && line[|t| + 1..] == u && (dotted ==> line[|t|] != '.')
  {
    var t := Unescaped(w);
    LiteralText(w, "?" + v, dotted, line);
    if t <= line {
      QuestionText(v, dotted, line[|t|..]);
      if |t| < |line| {
        assert line[|t|..][1..] == line[|t| + 1..] && line[|t|..][0] == line[|t|];
        WholeText(v, dotted, line[|t| + 1..]);
      }
    }
  }

  // ---------- numeric ranges ----------

  // From i to the closing character at k: digits, two dots at j, and digits, each run perhaps empty.
  ghost predicate IsRangeText(s: string, i: nat, j: nat, k: nat, closing: char) {
    && i < j && j + 2 <= k < |s| && AllDigits(s, i + 1, j) && s[j] == '.' && s[j + 1] == '.' && AllDigits(s, j + 2, k)
    && s[k] == closing
  }

  // The number in a run of digits, or -1 where there is none.
  function ValueOf(s: string, i: nat, j: nat): int
    requires i <= j <= |s|
  {
    if i == j || !(forall k {:trigger IsDigit(s[k])} :: i <= k < j ==> IsDigit(s[k])) then -1 else Number(s, i, j)
  }

  // There is a numeric range exactly where there is such a text, and it has those numbers as its ends.
  lemma RangeExactly(s: string, i: nat, closing: char)
    requires i < |s| && (closing == '}' || closing == ']')
    ensures RangeAt(s, i, closing).Range? <==> exists j: nat, k: nat :: IsRangeText(s, i, j, k, closing)
    ensures forall j: nat, k: nat :: IsRangeText(s, i, j, k, closing) ==>
      RangeAt(s, i, closing) == Range(k, ValueOf(s, i + 1, j), ValueOf(s, j + 2, k))
  {
    var a := DigitsEnd(s, i + 1);
    if HasDotsAt(s, a) {
      var b := DigitsEnd(s, a + 2);
      if b < |s| && s[b] == closing {
        assert IsRangeText(s, i, a, b, closing);
      }
    }
    forall j: nat, k: nat | IsRangeText(s, i, j, k, closing)
      ensures RangeAt(s, i, closing) == Range(k, ValueOf(s, i + 1, j), ValueOf(s, j + 2, k))
    {
      RangeThere(s, i, j, k, closing);
    }
  }

  lemma RangeThere(s: string, i: nat, j: nat, k: nat, closing: char)
    requires IsRangeText(s, i, j, k, closing) && (closing == '}' || closing == ']')
    ensures RangeAt(s, i, closing) == Range(k, ValueOf(s, i + 1, j), ValueOf(s, j + 2, k))
  {
    DigitsEndAt(s, i + 1, j);
    DigitsEndAt(s, j + 2, k);
    RangeIs(s, i, j, closing, k);
  }

  // A number between the numbers in two texts of digits; an empty one is no bound.
  ghost predicate Between(v: nat, a: string, b: string)
    requires AllDigits(a, 0, |a|) && AllDigits(b, 0, |b|)
  {
    (a != "" ==> Number(a, 0, |a|) <= v) && (b != "" ==> v <= Number(b, 0, |b|))
  }

  // The line starts with a number between them, and behind it the pattern text rest is matched.
  ghost predicate StartsBetween(a: string, b: string, rest: string, dotted: bool, line: string)
    requires AllDigits(a, 0, |a|) && AllDigits(b, 0, |b|)
  {
    var d := DigitsEnd(line, 0);
    d > 0 && Between(Number(line, 0, d), a, b) && Match(rest, dotted, line[d..])
  }

  // The text of a numeric range, in the middle of a pattern text.
  lemma RangeParts(p: string, open: string, a: string, b: string, close: string, rest: string)
    requires AllDigits(a, 0, |a|) && AllDigits(b, 0, |b|) && p == open + (a + (".." + (b + (close + rest))))
    requires |open| == 1 && |close| == 1 && (close[0] == '}' || close[0] == ']')
    ensures var k := 3 + |a| + |b|;
      && p[0] == open[0] && IsRangeText(p, 0, 1 + |a|, k, close[0]) && p[k..] == close + rest && p[k + 1..] == rest
      && ValueOf(p, 1, 1 + |a|) == ValueOf(a, 0, |a|) && ValueOf(p, 3 + |a|, k) == ValueOf(b, 0, |b|)
  {
    var j, k := 1 + |a|, 3 + |a| + |b|;
    assert p[k..] == close + rest && p[j] == '.' && p[j + 1] == '.';
    DigitsInside(p, 1, a);
    DigitsInside(p, j + 2, b);
  }

  lemma DigitsInside(p: string, i: nat, a: string)
    requires i + |a| <= |p| && p[i..i + |a|] == a && AllDigits(a, 0, |a|)
    ensures AllDigits(p, i, i + |a|) && ValueOf(p, i, i + |a|) == ValueOf(a, 0, |a|)
  {
    var front := p[..i + |a|];
    assert Behind(front, i, a);
    NumberMoved(front, i, a, 0, |a|);
    NumberInFront(p, i, i + |a|, front);
    assert forall k :: i <= k < i + |a| ==> p[k] == front[k];
  }

  lemma {:induction false} NumberInFront(p: string, i: nat, j: nat, front: string)
    requires i <= j <= |front| && front <= p && AllDigits(front, i, j)
    ensures AllDigits(p, i, j) && Number(p, i, j) == Number(front, i, j)
    decreases j
  {
    assert forall k :: 0 <= k < |front| ==> p[k] == front[k];
    if i < j {
      NumberInFront(p, i, j - 1, front);
    }
  }

  // A token that is a numeric range matches a number that the digits of the line end.
  lemma RangeFirst(p: string, n: nat, afterLiteral: bool, a: string, b: string, dotted: bool, line: string)
    requires AllDigits(a, 0, |a|) && AllDigits(b, 0, |b|)
    requires p != "" && Token(p, 0, afterLiteral, dotted) == Parsed(NumRange(ValueOf(a, 0, |a|), ValueOf(b, 0, |b|)), n)
    ensures MatchesAfter(p, afterLiteral, dotted, line) <==> StartsBetween(a, b, p[n..], dotted, line)
  {
    var e, d := NumRange(ValueOf(a, 0, |a|), ValueOf(b, 0, |b|)), DigitsEnd(line, 0);
    FirstToken(p, e, n, afterLiteral, dotted, line);
    forall j: nat | Spans(e, line, 0, j) ensures j == d {
      NumberSpan(line, e.from, e.to, 0, j);
    }
    assert Spans(e, line, 0, d) <==> d > 0 && Between(Number(line, 0, d), a, b);
  }

  // "{a..b}": leading zeros make no difference, and either number may be missing.
  lemma RangeInBraces(a: string, b: string, rest: string, dotted: bool, line: string)
    requires AllDigits(a, 0, |a|) && AllDigits(b, 0, |b|)
    ensures Match("{" + (a + (".." + (b + ("}" + rest)))), dotted, line) <==> StartsBetween(a, b, rest, dotted, line)
  {
    var p, k := "{" + (a + (".." + (b + ("}" + rest)))), 3 + |a| + |b|;
    RangeParts(p, "{", a, b, "}", rest);
    RangeThere(p, 0, 1 + |a|, k, '}');
    RangeFirst(p, k + 1, false, a, b, dotted, line);
  }

  // "w[a..b]": the brackets belong to the text, so that it is matched up to the opening bracket, and what
  // comes behind the number starts with the closing one.
  lemma RangeInBrackets(w: string, q: string, a: string, b: string, rest: string, dotted: bool, line: string)
    requires Ordinary(w) && AllDigits(a, 0, |a|) && AllDigits(b, 0, |b|) && q == "[" + (a + (".." + (b + ("]" + rest))))
    ensures var t := Unescaped(w) + "[";
      Match(w + q, dotted, line) <==> t <= line && StartsBetween(a, b, "]" + rest, dotted, line[|t|..])
  {
    BracketOpens(q, a, b, rest, dotted);
    RangeAfterText(w, q, 3 + |a| + |b|, a, b, "]" + rest, Unescaped(w) + "[", dotted, line);
  }

  lemma RangeAfterText(w: string, q: string, k: nat, a: string, b: string, tail: string, open: string, dotted: bool, line: string)
    requires Ordinary(w) && AllDigits(a, 0, |a|) && AllDigits(b, 0, |b|) && q != "" && q[0] == '[' && RangeAt(q, 0, ']').Range?
    requires Token(q, 0, true, dotted) == Parsed(NumRange(ValueOf(a, 0, |a|), ValueOf(b, 0, |b|)), k) && q[k..] == tail
    requires open == Unescaped(w) + "["
    ensures Match(w + q, dotted, line) <==> open <= line && StartsBetween(a, b, tail, dotted, line[|open|..])
  {
    var p := w + q;
    BracketTaken(w, q, dotted);
    BracketFirst(p, open, |w|, q, dotted, line);
    if open <= line {
      RangeFirst(q, k, true, a, b, dotted, line[|open|..]);
    }
  }

  // A literal in front of an opening bracket.
  lemma BracketFirst(p: string, t: string, n: nat, q: string, dotted: bool, line: string)
    requires p != "" && Token(p, 0, false, dotted) == Parsed(LiteralString(t), n) && p[n..] == q
    ensures Match(p, dotted, line) <==> t <= line && MatchesAfter(q, true, dotted, line[|t|..])
  {
    LiteralFirst(p, t, n, dotted, line);
  }

  lemma BracketOpens(q: string, a: string, b: string, rest: string, dotted: bool)
    requires AllDigits(a, 0, |a|) && AllDigits(b, 0, |b|) && q == "[" + (a + (".." + (b + ("]" + rest))))
    ensures 3 + |a| + |b| <= |q| && q[0] == '[' && RangeAt(q, 0, ']').Range? && q[3 + |a| + |b|..] == "]" + rest
    ensures Token(q, 0, true, dotted) == Parsed(NumRange(ValueOf(a, 0, |a|), ValueOf(b, 0, |b|)), 3 + |a| + |b|)
  {
    RangeParts(q, "[", a, b, "]", rest);
    RangeThere(q, 0, 1 + |a|, 3 + |a| + |b|, ']');
  }

  lemma BracketTaken(w: string, q: string, dotted: bool)
    requires Ordinary(w) && q != "" && q[0] == '[' && RangeAt(q, 0, ']').Range?
    ensures Token(w + q, 0, false, dotted) == Parsed(LiteralString(Unescaped(w) + "["), |w|) && (w + q)[|w|..] == q
  {
    LiteralCase(q, 0, 0, 1, true);
    LiteralInFront(w, q, Parsed("[", 0));
    assert w + q != "" && !IsSpecial((w + q)[0]);
  }

  // ---------- sets ----------

  // The text t consists of digits, two dots at j, and digits.
  ghost predicate IsBounds(t: string, j: nat) {
    j + 2 <= |t| && t[j] == '.' && t[j + 1] == '.' && AllDigits(t, 0, j) && AllDigits(t, j + 2, |t|)
  }

  // "{t}" and "{^t}", if they are not numeric ranges, take one character that t lists, or does not.
  lemma SetInBraces(t: string, negated: bool, rest: string, dotted: bool, line: string)
    requires t != "" && '}' !in t[1..] && (!negated ==> t[0] != '^' && forall j: nat :: !IsBounds(t, j))
    ensures Match("{" + ((if negated then "^" else "") + (t + ("}" + rest))), dotted, line) <==>
      line != "" && (Lists(t, line[0]) <==> !negated) && Match(rest, dotted, line[1..])
  {
    var p := "{" + ((if negated then "^" else "") + (t + ("}" + rest)));
    var i := if negated then 2 else 1;
    var k := i + |t|;
    assert p[i..k] == t && p[k] == '}' && p[k + 1..] == rest && p[i] == t[0] && (negated ==> p[1] == '^');
    NoRangeInSet(p, t, i, k);
    SetReads(p, i, t, 0, k);
    var chars := SetBody(p, i, true).value;
    var e := if negated then NegSet(chars) else CharSet(chars);
    FirstToken(p, e, k + 1, false, dotted, line);
    assert line != "" && (Lists(t, line[0]) <==> !negated) ==> Spans(e, line, 0, 1);
  }

  lemma NoRangeInSet(p: string, t: string, i: nat, k: nat)
    requires t != "" && '}' !in t[1..] && 1 <= i && k == i + |t| < |p| && p[i..k] == t && p[k] == '}'
    requires if i == 1 then forall j: nat :: !IsBounds(t, j) else p[1] == '^'
    ensures RangeAt(p, 0, '}') == NoRange
  {
    RangeExactly(p, 0, '}');
    assert i != 1 ==> !IsDigit(p[1]);
    if j: nat, z: nat :| i == 1 && IsRangeText(p, 0, j, z, '}') {
      BoundsInside(p, t, j, z);
    }
  }

  // A range that starts where t does is t.
  lemma BoundsInside(p: string, t: string, j: nat, z: nat)
    requires t != "" && '}' !in t[1..] && 1 + |t| < |p| && p[1..1 + |t|] == t && p[1 + |t|] == '}' && IsRangeText(p, 0, j, z, '}')
    ensures j > 0 && IsBounds(t, j - 1)
  {
    assert forall m :: 0 <= m < |t| ==> t[m] == p[1..1 + |t|][m] == p[m + 1];
    assert forall m :: 1 <= m < |t| ==> t[m] == t[1..][m - 1];
    assert forall m :: 1 <= m < z ==> p[m] == '.' || IsDigit(p[m]);
  }

  // ---------- patterns without wildcards ----------

  // containsWildcards is false for exactly those texts that become themselves as one literal, and have
  // no two dots in a row.
  lemma WildcardsExactly(p: string, dotted: bool)
    ensures !ContainsWildcards(p) <==>
      && Compile(p, 0, false, dotted) == Parsed(if p == "" then [] else [LiteralString(p)], |p|)
      && forall i {:trigger p[i]} :: 0 <= i < |p| - 1 ==> !(p[i] == '.' && p[i + 1] == '.')
  {
    if p != "" && Compile(p, 0, false, dotted) == Parsed([LiteralString(p)], |p|) {
      var t := Token(p, 0, false, dotted);
      CompileStep(p, 0, t, false, dotted);
      assert t.value == [LiteralString(p)][0];
      assert Literal(p, 0).value == p;
      LiteralShort(p, 0);
      assert Literal(p, 0).next == |p|;
    }
    if !ContainsWildcards(p) && p != "" {
      assert p[0] in p;
      PlainLiteral(p, 0);
      assert p[0..] == p && [LiteralString(p)] + [] == [LiteralString(p)];
      CompileStep(p, 0, Parsed(LiteralString(p), |p|), false, dotted);
    }
  }

  // A literal is as long as its text only without backslashes and special characters.
  lemma {:induction false} LiteralShort(s: string, i: nat)
    requires i <= |s| && Literal(s, i).Parsed?
    ensures var r := Literal(s, i);
      && |r.value| <= r.next - i + 1
      && (r.next == |s| ==> |r.value| <= r.next - i)
      && (r.next == |s| && |r.value| == |s| - i ==> forall k :: i <= k < |s| ==> !IsSpecial(s[k]) && s[k] != '\\')
    decreases |s| - i
  {
    if i < |s| && !IsSpecial(s[i]) {
      var j := if s[i] == '\\' then i + 1 else i;
      if !(s[j] == '[' && RangeAt(s, j, ']').Range?) {
        LiteralShort(s, j + 1);
      }
    }
  }
}
