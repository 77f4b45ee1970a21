/**
 * The text side of the per-fragment decoder: splitting a fragment on the
 * regular expression /(?<!\\)\n/ (a newline not directly after a backslash),
 * JavaScript's String.prototype.trim, and dropping the pieces left empty.
 */
module Lines {

  /** Position `i` of `s` is a split point: a newline with no backslash right before it. */
  predicate IsBreak(s: string, i: nat)
    requires i < |s|
  {
    s[i] == '\n' && (i == 0 || s[i - 1] != '\\')
  }

  /** `p` holds no split point of its own. */
  predicate NoBreak(p: string) {
    forall j :: 0 <= j < |p| ==> !IsBreak(p, j)
  }

  /** A newline appended after `p` would be a split point. */
  predicate CanEndLine(p: string) {
    |p| == 0 || p[|p| - 1] != '\\'
  }

  /** The shape of every split result: no piece can be split again, and every separator was a split point. */
  predicate ValidPieces(ps: seq<string>) {
    && |ps| > 0
    && (forall i :: 0 <= i < |ps| ==> NoBreak(ps[i]))
    && (forall i :: 0 <= i < |ps| - 1 ==> CanEndLine(ps[i]))
  }

  /** Array.prototype.join with "\n". */
  function Join(ps: seq<string>): string
    requires |ps| > 0
  {
    if |ps| == 1 then ps[0] else Join(ps[..|ps| - 1]) + "\n" + ps[|ps| - 1]
  }

  /**
   * String.prototype.split with /(?<!\\)\n/, read left to right: each
   * character either closes the current piece (a split point) or is appended
   * to it.
   */
  function Split(s: string): (ps: seq<string>)
    ensures |ps| > 0
    decreases |s|
  {
    if |s| == 0 then [""]
    else
      var ps := Split(s[..|s| - 1]);
      if IsBreak(s, |s| - 1) then ps + [""]
      else ps[..|ps| - 1] + [ps[|ps| - 1] + [s[|s| - 1]]]
  }

  /** The last piece of a split is a suffix of the text, and is empty only after a split point or at the start. */
  lemma {:induction false} SplitLast(s: string)
    ensures var last := Split(s)[|Split(s)| - 1];
            && |last| <= |s| && s[|s| - |last|..] == last
            && (last == "" ==> |s| == 0 || s[|s| - 1] == '\n')
    decreases |s|
  {
    if |s| > 0 {
      var init, c := s[..|s| - 1], s[|s| - 1];
      assert s == init + [c];
      SplitLast(init);
      var ps := Split(init);
      var last := ps[|ps| - 1];
      if IsBreak(s, |s| - 1) {
        assert Split(s) == ps + [""];
      } else {
        var ps' := ps[..|ps| - 1] + [last + [c]];
        assert Split(s) == ps';
        assert ps'[|ps'| - 1] == last + [c];
        assert s[|s| - |last| - 1..] == init[|init| - |last|..] + [c];
      }
    }
  }

  /** Appending one character that is not a split point extends the last piece. */
  lemma AppendNoBreak(last: string, init: string, c: char)
    requires |last| <= |init| && init[|init| - |last|..] == last
    requires last == "" ==> |init| == 0 || init[|init| - 1] == '\n'
    requires NoBreak(last)
    requires !IsBreak(init + [c], |init|)
    ensures NoBreak(last + [c])
  {
    var p := last + [c];
    forall j | 0 <= j < |p| ensures !IsBreak(p, j) {
      if j < |last| {
        assert IsBreak(p, j) == IsBreak(last, j);
      } else if |last| > 0 {
        assert p[j - 1] == (init + [c])[|init| - 1];
      }
    }
  }

  /** Closing the last piece after a split point keeps the pieces well formed. */
  lemma ValidAfterBreak(ps: seq<string>)
    requires ValidPieces(ps) && CanEndLine(ps[|ps| - 1])
    ensures ValidPieces(ps + [""])
  {
    var ps' := ps + [""];
    assert forall i :: 0 <= i < |ps| ==> ps'[i] == ps[i];
  }

  /** Extending the last piece with a character that is not a split point keeps the pieces well formed. */
  lemma ValidAfterExtend(ps: seq<string>, c: char)
    requires ValidPieces(ps) && NoBreak(ps[|ps| - 1] + [c])
    ensures ValidPieces(ps[..|ps| - 1] + [ps[|ps| - 1] + [c]])
  {
    var ps' := ps[..|ps| - 1] + [ps[|ps| - 1] + [c]];
    assert forall i :: 0 <= i < |ps'| - 1 ==> ps'[i] == ps[i];
  }

  /** Every split result is well formed: no piece splits again and each separator was a split point. */
  lemma {:induction false} SplitValid(s: string)
    ensures ValidPieces(Split(s))
    decreases |s|
  {
    if |s| > 0 {
      var init, c := s[..|s| - 1], s[|s| - 1];
      assert s == init + [c];
      SplitValid(init);
      SplitLast(init);
      var ps := Split(init);
      var last := ps[|ps| - 1];
      if IsBreak(s, |s| - 1) {
        assert CanEndLine(last);
        ValidAfterBreak(ps);
      } else {
        AppendNoBreak(last, init, c);
        ValidAfterExtend(ps, c);
      }
    }
  }

  /** Joining the pieces of a split with newlines gives the text back. */
  lemma {:induction false} JoinSplit(s: string)
    ensures Join(Split(s)) == s
    decreases |s|
  {
    if |s| > 0 {
      var init, c := s[..|s| - 1], s[|s| - 1];
      assert s == init + [c];
      JoinSplit(init);
      var ps := Split(init);
      var last := ps[|ps| - 1];
      if IsBreak(s, |s| - 1) {
        var ps' := ps + [""];
        assert Split(s) == ps';
        assert ps'[..|ps'| - 1] == ps;
      } else {
        var ps' := ps[..|ps| - 1] + [last + [c]];
        assert Split(s) == ps';
        assert ps'[..|ps'| - 1] == ps[..|ps| - 1];
        if |ps| > 1 {
          assert Join(ps) == Join(ps[..|ps| - 1]) + "\n" + last;
        }
      }
    }
  }

  lemma {:induction false} SplitOfNoBreak(p: string)
    requires NoBreak(p)
    ensures Split(p) == [p]
    decreases |p|
  {
    if |p| > 0 {
      var init := p[..|p| - 1];
      assert forall j :: 0 <= j < |init| ==> IsBreak(init, j) == IsBreak(p, j);
      SplitOfNoBreak(init);
      assert !IsBreak(p, |p| - 1);
      assert init + [p[|p| - 1]] == p;
    }
  }

  /** Splitting text that continues after a split point with an unbreakable piece adds exactly that piece. */
  lemma {:induction false} SplitAfterBreak(x: string, t: string)
    requires CanEndLine(x)
    requires NoBreak(t)
    ensures Split(x + "\n" + t) == Split(x) + [t]
    decreases |t|
  {
    var s := x + "\n" + t;
    if |t| == 0 {
      assert s == x + "\n";
      assert s[..|s| - 1] == x;
      assert IsBreak(s, |s| - 1);
    } else {
      var t' := t[..|t| - 1];
      var c := t[|t| - 1];
      assert forall j :: 0 <= j < |t'| ==> IsBreak(t', j) == IsBreak(t, j);
      SplitAfterBreak(x, t');
      assert s[..|s| - 1] == x + "\n" + t';
      assert !IsBreak(t, |t| - 1);
      assert !IsBreak(s, |s| - 1);
      assert t' + [c] == t;
    }
  }

  /** The joined text ends in a way that lets a newline after it split. */
  lemma JoinCanEndLine(ps: seq<string>)
    requires |ps| > 0
    requires CanEndLine(ps[|ps| - 1])
    ensures CanEndLine(Join(ps))
  {
    if |ps| > 1 {
      var j := Join(ps);
      assert j == Join(ps[..|ps| - 1]) + "\n" + ps[|ps| - 1];
    }
  }

  /** Split inverts Join on every well-formed piece sequence: the split result is the only valid one. */
  lemma {:induction false} SplitJoin(ps: seq<string>)
    requires ValidPieces(ps)
    ensures Split(Join(ps)) == ps
    decreases |ps|
  {
    if |ps| == 1 {
      SplitOfNoBreak(ps[0]);
    } else {
      var init := ps[..|ps| - 1];
      assert ValidPieces(init);
      SplitJoin(init);
      JoinCanEndLine(init);
      SplitAfterBreak(Join(init), ps[|ps| - 1]);
      assert init + [ps[|ps| - 1]] == ps;
    }
  }

  /**
   * The characters String.prototype.trim strips: ECMAScript WhiteSpace
   * (tab, vertical tab, form feed, space, no-break space, byte order mark and
   * the other Zs characters) and LineTerminator (LF, CR, LS, PS).
   */
  predicate IsWhitespace(c: char) {
    || c == '\t' || c == '\U{000B}' || c == '\U{000C}' || c == ' '
    || c == '\U{00A0}' || c == '\U{FEFF}'
    || c == '\n' || c == '\r' || c == '\U{2028}' || c == '\U{2029}'
    || c == '\U{1680}' || ('\U{2000}' <= c <= '\U{200A}')
    || c == '\U{202F}' || c == '\U{205F}' || c == '\U{3000}'
  }

  /** Every character of `s` is whitespace. */
  predicate Blank(s: string) {
    forall k :: 0 <= k < |s| ==> IsWhitespace(s[k])
  }

  /** Drops leading whitespace. */
  function TrimStart(s: string): string {
    if |s| > 0 && IsWhitespace(s[0]) then
      TrimStart(s[1..])
    else s
  }

  /** Drops trailing whitespace. */
  function TrimEnd(s: string): string {
    if |s| > 0 && IsWhitespace(s[|s| - 1]) then
      TrimEnd(s[..|s| - 1])
    else s
  }

  /** TrimStart leaves a suffix of the input, drops only whitespace, and stops at the first other character. */
  lemma {:induction false} TrimStartSpec(s: string)
    ensures |TrimStart(s)| <= |s| && TrimStart(s) == s[|s| - |TrimStart(s)|..]
    ensures forall k :: 0 <= k < |s| - |TrimStart(s)| ==> IsWhitespace(s[k])
    ensures |TrimStart(s)| > 0 ==> !IsWhitespace(TrimStart(s)[0])
    decreases |s|
  {
    if |s| > 0 && IsWhitespace(s[0]) {
      TrimStartSpec(s[1..]);
      assert s[1..][|s| - 1 - |TrimStart(s)|..] == s[|s| - |TrimStart(s)|..];
      forall k | 1 <= k < |s| - |TrimStart(s)| ensures IsWhitespace(s[k]) {
        assert s[k] == s[1..][k - 1];
      }
    }
  }

  /** TrimEnd leaves a prefix of the input, drops only whitespace, and stops at the last other character. */
  lemma {:induction false} TrimEndSpec(s: string)
    ensures |TrimEnd(s)| <= |s| && TrimEnd(s) == s[..|TrimEnd(s)|]
    ensures forall k :: |TrimEnd(s)| <= k < |s| ==> IsWhitespace(s[k])
    ensures |TrimEnd(s)| > 0 ==> !IsWhitespace(TrimEnd(s)[|TrimEnd(s)| - 1])
    decreases |s|
  {
    if |s| > 0 && IsWhitespace(s[|s| - 1]) {
      TrimEndSpec(s[..|s| - 1]);
      assert s[..|s| - 1][..|TrimEnd(s)|] == s[..|TrimEnd(s)|];
      forall k | |TrimEnd(s)| <= k < |s| - 1 ensures IsWhitespace(s[k]) {
        assert s[k] == s[..|s| - 1][k];
      }
    }
  }

  /** String.prototype.trim. */
  function Trim(s: string): string {
    TrimEnd(TrimStart(s))
  }

  /**
   * Trim removes a whitespace prefix and a whitespace suffix and nothing else:
   * the result is a slice of the input bounded by non-whitespace characters.
   */
  lemma TrimIsSlice(s: string)
    ensures exists a, b :: 0 <= a <= b <= |s| && Trim(s) == s[a..b]
                            && Blank(s[..a]) && Blank(s[b..])
    ensures |Trim(s)| > 0 ==> !IsWhitespace(Trim(s)[0]) && !IsWhitespace(Trim(s)[|Trim(s)| - 1])
  {
    var st := TrimStart(s);
    var t := TrimEnd(st);
    TrimStartSpec(s);
    TrimEndSpec(st);
    var a := |s| - |st|;
    var b := a + |t|;
    assert t == s[a..b];
    assert Blank(s[..a]) by {
      forall k | 0 <= k < a ensures IsWhitespace(s[..a][k]) {
        assert s[..a][k] == s[k];
      }
    }
    assert Blank(s[b..]) by {
      forall k | 0 <= k < |s| - b ensures IsWhitespace(s[b..][k]) {
        assert s[b..][k] == st[|t| + k];
      }
    }
  }

  lemma {:induction false} TrimStartBlank(s: string)
    requires Blank(s)
    ensures TrimStart(s) == ""
    decreases |s|
  {
    if |s| > 0 {
      assert Blank(s[1..]) by {
        forall k | 0 <= k < |s| - 1 ensures IsWhitespace(s[1..][k]) {
          assert s[1..][k] == s[k + 1];
        }
      }
      TrimStartBlank(s[1..]);
    }
  }

  /** A piece trims to the empty string exactly when it is all whitespace. */
  lemma TrimEmptyIffBlank(s: string)
    ensures Trim(s) == "" <==> Blank(s)
  {
    var st := TrimStart(s);
    TrimStartSpec(s);
    TrimEndSpec(st);
    if Blank(s) {
      TrimStartBlank(s);
    }
    if Trim(s) == "" {
      assert |st| == 0;
    }
  }

  lemma TrimIdempotent(s: string)
    ensures Trim(Trim(s)) == Trim(s)
  {
    var t := Trim(s);
    TrimIsSlice(s);
    if |t| > 0 {
      assert TrimStart(t) == t;
      assert TrimEnd(t) == t;
    }
  }

  /** The `.map((line) => line.trim())` step. */
  function TrimAll(ps: seq<string>): (ts: seq<string>)
    ensures |ts| == |ps|
    ensures forall i :: 0 <= i < |ps| ==> ts[i] == Trim(ps[i])
  {
    if |ps| == 0 then [] else [Trim(ps[0])] + TrimAll(ps[1..])
  }

  /** The `.filter((line) => line !== '')` step. */
  function DropEmpty(ts: seq<string>): (r: seq<string>)
    ensures "" !in r
  {
    if |ts| == 0 then []
    else
      var rest := DropEmpty(ts[1..]);
      if ts[0] == "" then rest else [ts[0]] + rest
  }

  /** Filtering keeps every non-empty piece as often as it occurs, and nothing else. */
  lemma {:induction false} DropEmptyContents(ts: seq<string>)
    ensures forall x :: x != "" ==> multiset(DropEmpty(ts))[x] == multiset(ts)[x]
    ensures multiset(DropEmpty(ts))[""] == 0
    decreases |ts|
  {
    if |ts| > 0 {
      DropEmptyContents(ts[1..]);
      assert ts == [ts[0]] + ts[1..];
    }
  }

  /** Filtering keeps the order: it distributes over concatenation. */
  lemma {:induction false} DropEmptyAppend(a: seq<string>, b: seq<string>)
    ensures DropEmpty(a + b) == DropEmpty(a) + DropEmpty(b)
    decreases |a|
  {
    if |a| > 0 {
      assert (a + b)[0] == a[0];
      assert (a + b)[1..] == a[1..] + b;
      DropEmptyAppend(a[1..], b);
      if a[0] != "" {
        assert DropEmpty(a) == [a[0]] + DropEmpty(a[1..]);
        assert DropEmpty(a + b) == [a[0]] + DropEmpty(a[1..] + b);
      } else {
        assert DropEmpty(a) == DropEmpty(a[1..]);
        assert DropEmpty(a + b) == DropEmpty(a[1..] + b);
      }
    } else {
      assert a + b == b;
    }
  }

  /** The number of pieces that are not all whitespace. */
  function CountNonBlank(ps: seq<string>): nat {
    if |ps| == 0 then 0 else (if Blank(ps[0]) then 0 else 1) + CountNonBlank(ps[1..])
  }

  /** The trimmed, non-blank lines of one fragment, in order. */
  function FragmentLines(fragment: string): seq<string> {
    DropEmpty(TrimAll(Split(fragment)))
  }

  lemma {:induction false} DropEmptyTrimCount(ps: seq<string>)
    ensures |DropEmpty(TrimAll(ps))| == CountNonBlank(ps)
    decreases |ps|
  {
    if |ps| > 0 {
      TrimEmptyIffBlank(ps[0]);
      assert TrimAll(ps)[1..] == TrimAll(ps[1..]);
      DropEmptyTrimCount(ps[1..]);
    }
  }

  /** One line per piece of the fragment that is not all whitespace. */
  lemma FragmentLinesCount(fragment: string)
    ensures |FragmentLines(fragment)| == CountNonBlank(Split(fragment))
  {
    DropEmptyTrimCount(Split(fragment));
  }

  /** Every line handed to the parser is trimmed and non-empty. */
  lemma FragmentLinesTrimmed(fragment: string)
    ensures forall i :: 0 <= i < |FragmentLines(fragment)| ==>
              FragmentLines(fragment)[i] != "" && Trim(FragmentLines(fragment)[i]) == FragmentLines(fragment)[i]
  {
    var ls := FragmentLines(fragment);
    var ts := TrimAll(Split(fragment));
    forall i | 0 <= i < |ls|
      ensures ls[i] != "" && Trim(ls[i]) == ls[i]
    {
      DropEmptyContents(ts);
      assert ls[i] in multiset(ls);
      assert ls[i] in multiset(ts);
      var k :| 0 <= k < |ts| && ts[k] == ls[i];
      TrimIdempotent(Split(fragment)[k]);
    }
  }

  /**
   * A fragment whose lines are already trimmed and non-empty, joined with
   * split-point newlines, yields exactly those lines.
   */
  lemma FragmentLinesOfJoin(ps: seq<string>)
    requires ValidPieces(ps)
    requires forall i :: 0 <= i < |ps| ==> ps[i] != "" && Trim(ps[i]) == ps[i]
    ensures FragmentLines(Join(ps)) == ps
  {
    SplitJoin(ps);
    assert TrimAll(ps) == ps;
    DropEmptyKeepsNonEmpty(ps);
  }

  lemma {:induction false} DropEmptyKeepsNonEmpty(ts: seq<string>)
    requires "" !in ts
    ensures DropEmpty(ts) == ts
    decreases |ts|
  {
    if |ts| > 0 {
      assert ts[0] in ts;
      assert forall x :: x in ts[1..] ==> x in ts;
      DropEmptyKeepsNonEmpty(ts[1..]);
    }
  }

  /** A line as a well-behaved producer writes it: some content, no newline, no surrounding whitespace. */
  predicate CleanLine(s: string) {
    s != "" && '\n' !in s && !IsWhitespace(s[0]) && !IsWhitespace(s[|s| - 1])
  }

  lemma CleanLineShape(s: string)
    requires CleanLine(s)
    ensures NoBreak(s) && Trim(s) == s
  {
    forall j | 0 <= j < |s| ensures !IsBreak(s, j) {
      assert s[j] in s;
    }
    assert TrimStart(s) == s;
  }

  /** Clean lines joined with newlines that are split points come back out as exactly those lines. */
  lemma CleanLinesFragment(ps: seq<string>)
    requires |ps| > 0
    requires forall i :: 0 <= i < |ps| ==> CleanLine(ps[i])
    requires forall i :: 0 <= i < |ps| - 1 ==> CanEndLine(ps[i])
    ensures FragmentLines(Join(ps)) == ps
  {
    forall i | 0 <= i < |ps| ensures NoBreak(ps[i]) && Trim(ps[i]) == ps[i] {
      CleanLineShape(ps[i]);
    }
    FragmentLinesOfJoin(ps);
  }

  /** A clean line with its terminating newline is one line: the empty piece after the newline is dropped. */
  lemma TerminatedLineFragment(s: string)
    requires CleanLine(s) && CanEndLine(s)
    ensures FragmentLines(s + "\n") == [s]
  {
    CleanLineShape(s);
    SplitOfNoBreak(s);
    assert NoBreak("");
    SplitAfterBreak(s, "");
    assert s + "\n" + "" == s + "\n";
    var ts := TrimAll([s, ""]);
    assert ts == [s, ""];
    assert DropEmpty(ts) == [s] + DropEmpty([""]) by {
      assert ts[1..] == [""];
    }
    assert DropEmpty([""]) == DropEmpty([]) by {
      assert [""][1..] == [];
    }
  }
}
