/** Python string primitives the ingest path and the validators rely on:
    whitespace as `str.isspace()` sees it, `str.strip()`, the `re.sub(r'\s+', ' ', ...)`
    collapse, `str.split()` into words, `" ".join(...)`, substring tests and
    ASCII case mapping. */
module Text {

  /** Python's `str.isspace()`: also the class `\s` matches in a `str` regex and the
      characters `str.strip()` and `int()` remove. */
  predicate IsSpace(c: char) {
    SpaceFrom(c, 0)
  }

  /** `c` lies in one of the whitespace code-point ranges numbered `k` or above. */
  predicate SpaceFrom(c: char, k: nat)
    decreases 11 - k
  {
    k < 11 && ((SpaceLow(k) <= c <= SpaceHigh(k)) || SpaceFrom(c, k + 1))
  }

  /** The eleven code-point ranges of Python's whitespace characters, as (low, high) bounds. */
  function SpaceLow(k: nat): char {
    match k
    case 0 => ' '
    case 1 => '\t'
    case 2 => '\U{1C}'
    case 3 => '\U{85}'
    case 4 => '\U{A0}'
    case 5 => '\U{1680}'
    case 6 => '\U{2000}'
    case 7 => '\U{2028}'
    case 8 => '\U{202F}'
    case 9 => '\U{205F}'
    case _ => '\U{3000}'
  }

  function SpaceHigh(k: nat): char {
    match k
    case 0 => ' '
    case 1 => '\r'
    case 2 => '\U{1F}'
    case 3 => '\U{85}'
    case 4 => '\U{A0}'
    case 5 => '\U{1680}'
    case 6 => '\U{200A}'
    case 7 => '\U{2029}'
    case 8 => '\U{202F}'
    case 9 => '\U{205F}'
    case _ => '\U{3000}'
  }

  /** Neither starts nor ends with whitespace. */
  ghost predicate Trimmed(s: string) {
    TrimmedBy(IsSpace, s)
  }

  /** Trimmed, every whitespace character is a plain space, and no two whitespace
      characters are adjacent: the shape `" ".join(s.split())` produces. */
  ghost predicate Canonical(s: string) {
    CanonicalBy(IsSpace, s)
  }

  /** `s.strip()`. */
  function Strip(s: string): (r: string)
    ensures Trimmed(r)
  {
    var l := DropLeading(IsSpace, s);
    var r := DropTrailing(IsSpace, l);
    assert TrimmedBy(IsSpace, r) by {
      if r != [] {
        assert r[0] == l[0];
      }
    }
    r
  }

  /** `strip()` keeps an inner slice of its input and removes only whitespace around
      it: the slice starts after the leading whitespace. */
  lemma StripKeepsInner(s: string)
    ensures var i := |s| - |DropLeading(IsSpace, s)|;
            && i + |Strip(s)| <= |s|
            && Strip(s) == s[i..i + |Strip(s)|]
            && AllIn(IsSpace, s[..i])
            && AllIn(IsSpace, s[i + |Strip(s)|..])
  {
    StripSlice(s);
    StripLeadingSpace(s);
    StripTrailingSpace(s);
  }

  lemma StripSlice(s: string)
    ensures var i := |s| - |DropLeading(IsSpace, s)|;
            i + |Strip(s)| <= |s| && Strip(s) == s[i..i + |Strip(s)|]
  {
    DropLeadingSuffix(IsSpace, s);
  }

  lemma StripLeadingSpace(s: string)
    ensures AllIn(IsSpace, s[..|s| - |DropLeading(IsSpace, s)|])
  {
    var i := |s| - |DropLeading(IsSpace, s)|;
    forall k | 0 <= k < i
      ensures IsSpace(s[..i][k])
    {
      DropLeadingDropsOnlyClass(IsSpace, s, k);
    }
  }

  lemma StripTrailingSpace(s: string)
    ensures var i := |s| - |DropLeading(IsSpace, s)|;
            i + |Strip(s)| <= |s| && AllIn(IsSpace, s[i + |Strip(s)|..])
  {
    var l := DropLeading(IsSpace, s);
    var i := |s| - |l|;
    var r := DropTrailing(IsSpace, l);
    DropLeadingSuffix(IsSpace, s);
    DropTrailingDropsOnlyClass(IsSpace, l);
    assert s[i + |r|..] == l[|r|..];
  }

  /** `strip()` leaves a string without surrounding whitespace as it is. */
  lemma StripOfTrimmed(s: string)
    requires s != [] && !IsSpace(s[0]) && !IsSpace(s[|s| - 1])
    ensures Strip(s) == s
  {
  }

  /** `re.sub(r'\s+', ' ', s)`: each maximal whitespace run becomes a single space. */
  function Collapse(s: string): string {
    CollapseRuns(IsSpace, s)
  }

  /** `s.split()`: the maximal whitespace-free runs of `s`, in order. */
  function Words(s: string): seq<string> {
    Split(IsSpace, s)
  }

  /** `" ".join(ws)`. */
  function JoinSpaces(ws: seq<string>): string {
    if ws == [] then [] else if |ws| == 1 then ws[0] else ws[0] + " " + JoinSpaces(ws[1..])
  }

  /** Strip, then collapse whitespace runs: the common core of `sanitize_input` and of
      the whitespace step of `_clean_text`. It equals re-joining the words of `s` with
      single spaces. */
  function Squeeze(s: string): (r: string)
    ensures r == JoinSpaces(Words(s))
    ensures Canonical(r)
  {
    SqueezeIsJoinOfWords(s);
    SplitGivesRuns(IsSpace, s);
    JoinCanonical(IsSpace, Words(s));
    Collapse(Strip(s))
  }

  predicate StartsWith(s: string, prefix: string) {
    |prefix| <= |s| && s[..|prefix|] == prefix
  }

  /** Python's `sub in s`. */
  predicate Contains(s: string, sub: string) {
    exists k :: 0 <= k <= |s| - |sub| && StartsWith(s[k..], sub)
  }

  /** ASCII part of `str.upper()`; other characters are left unchanged. */
  function UpperChar(c: char): (u: char)
    ensures 'a' <= c <= 'z' ==> 'A' <= u <= 'Z' && u as int == c as int - 32
    ensures !('a' <= c <= 'z') ==> u == c
  {
    if 'a' <= c <= 'z' then (c as int - 32) as char else c
  }

  /** ASCII part of `str.lower()`; other characters are left unchanged. */
  function LowerChar(c: char): (l: char)
    ensures 'A' <= c <= 'Z' ==> 'a' <= l <= 'z' && l as int == c as int + 32
    ensures !('A' <= c <= 'Z') ==> l == c
  {
    if 'A' <= c <= 'Z' then (c as int + 32) as char else c
  }

  function Upper(s: string): (r: string)
    ensures |r| == |s| && forall i :: 0 <= i < |s| ==> r[i] == UpperChar(s[i])
  {
    seq(|s|, i requires 0 <= i < |s| => UpperChar(s[i]))
  }

  function Lower(s: string): (r: string)
    ensures |r| == |s| && forall i :: 0 <= i < |s| ==> r[i] == LowerChar(s[i])
  {
    seq(|s|, i requires 0 <= i < |s| => LowerChar(s[i]))
  }

  lemma UpperIdempotent(s: string)
    ensures Upper(Upper(s)) == Upper(s)
  {
  }

  /** Normalisation keeps the words of the input, in order, and nothing else. */
  lemma SqueezeKeepsWords(s: string)
    ensures Words(Squeeze(s)) == Words(s)
  {
    SplitGivesRuns(IsSpace, s);
    SplitOfJoin(IsSpace, Words(s));
  }

  /** What `Squeeze` promises a caller that does not care how it is computed. */
  lemma SqueezeCanonicalWords(s: string)
    ensures Canonical(Squeeze(s)) && Words(Squeeze(s)) == Words(s)
  {
    SqueezeKeepsWords(s);
  }

  lemma SqueezeIdempotent(s: string)
    ensures Squeeze(Squeeze(s)) == Squeeze(s)
  {
    SqueezeKeepsWords(s);
  }

  /** The whitespace normalisation equals `" ".join(s.split())`. */
  lemma SqueezeIsJoinOfWords(s: string)
    ensures Collapse(Strip(s)) == JoinSpaces(Words(s))
  {
    CollapseTrimmed(IsSpace, Strip(s));
    SplitDropTrailing(IsSpace, DropLeading(IsSpace, s));
    SplitDropLeading(IsSpace, s);
  }

  // ---------------------------------------------------------------------------
  // The structural theory, for an arbitrary character class `sp`. Python's
  // functions above instantiate `sp` with `IsSpace`; keeping the class a parameter
  // keeps these proofs independent of which code points are whitespace.

  ghost predicate AllIn(sp: char -> bool, s: string) {
    forall i :: 0 <= i < |s| ==> sp(s[i])
  }

  ghost predicate NoneIn(sp: char -> bool, s: string) {
    forall i :: 0 <= i < |s| ==> !sp(s[i])
  }

  ghost predicate TrimmedBy(sp: char -> bool, s: string) {
    s == [] || (!sp(s[0]) && !sp(s[|s| - 1]))
  }

  ghost predicate CanonicalBy(sp: char -> bool, s: string) {
    && TrimmedBy(sp, s)
    && (forall i :: 0 <= i < |s| && sp(s[i]) ==> s[i] == ' ')
    && (forall i :: 0 <= i < |s| - 1 ==> !sp(s[i]) || !sp(s[i + 1]))
  }

  /** Each element is a non-empty run free of `sp`. */
  ghost predicate AreRuns(sp: char -> bool, ws: seq<string>) {
    forall i :: 0 <= i < |ws| ==> ws[i] != [] && NoneIn(sp, ws[i])
  }

  /** The suffix left after dropping the leading run of `sp` characters. */
  function DropLeading(sp: char -> bool, s: string): (r: string)
    ensures |r| <= |s|
    ensures r == [] || !sp(r[0])
    decreases |s|
  {
    if s == [] || !sp(s[0]) then s else DropLeading(sp, s[1..])
  }

  /** What `DropLeading` leaves is a suffix of its input. */
  lemma {:induction false} DropLeadingSuffix(sp: char -> bool, s: string)
    ensures DropLeading(sp, s) == s[|s| - |DropLeading(sp, s)|..]
    decreases |s|
  {
    if s != [] && sp(s[0]) {
      DropLeadingSuffix(sp, s[1..]);
      assert s[1..][|s[1..]| - |DropLeading(sp, s[1..])|..] == s[|s| - |DropLeading(sp, s)|..];
    }
  }

  /** The prefix left after dropping the trailing run of `sp` characters. */
  function DropTrailing(sp: char -> bool, s: string): (r: string)
    ensures |r| <= |s| && r == s[..|r|]
    ensures r == [] || !sp(r[|r| - 1])
    decreases |s|
  {
    if s == [] || !sp(s[|s| - 1]) then s else DropTrailing(sp, s[..|s| - 1])
  }

  /** Replaces each maximal run of `sp` characters by one space. */
  function CollapseRuns(sp: char -> bool, s: string): string
    decreases |s|
  {
    if s == [] then []
    else if sp(s[0]) then " " + CollapseRuns(sp, DropLeading(sp, s))
    else [s[0]] + CollapseRuns(sp, s[1..])
  }

  /** The longest prefix of `s` free of `sp`. */
  function Run(sp: char -> bool, s: string): (w: string)
    ensures |w| <= |s| && w == s[..|w|]
    ensures |w| == |s| || sp(s[|w|])
    ensures s != [] && !sp(s[0]) ==> w != []
    decreases |s|
  {
    if s == [] || sp(s[0]) then [] else [s[0]] + Run(sp, s[1..])
  }

  /** The maximal `sp`-free runs of `s`, in order. */
  function Split(sp: char -> bool, s: string): seq<string>
    decreases |s|
  {
    var t := DropLeading(sp, s);
    if t == [] then []
    else
      var w := Run(sp, t);
      [w] + Split(sp, t[|w|..])
  }

  lemma {:induction false} DropLeadingDropsOnlyClass(sp: char -> bool, s: string, i: nat)
    requires i < |s| - |DropLeading(sp, s)|
    ensures sp(s[i])
    decreases |s|
  {
    if i > 0 {
      var t := s[1..];
      assert s[i] == t[i - 1];
      DropLeadingDropsOnlyClass(sp, t, i - 1);
    }
  }

  lemma {:induction false} DropTrailingDropsOnlyClass(sp: char -> bool, s: string)
    ensures AllIn(sp, s[|DropTrailing(sp, s)|..])
    decreases |s|
  {
    if s != [] && sp(s[|s| - 1]) {
      var s' := s[..|s| - 1];
      DropTrailingDropsOnlyClass(sp, s');
      assert s[|DropTrailing(sp, s)|..] == s'[|DropTrailing(sp, s')|..] + [s[|s| - 1]];
    }
  }

  lemma {:induction false} RunHasNoClass(sp: char -> bool, s: string)
    ensures NoneIn(sp, Run(sp, s))
    decreases |s|
  {
    if s != [] && !sp(s[0]) {
      RunHasNoClass(sp, s[1..]);
    }
  }

  lemma {:induction false} SplitGivesRuns(sp: char -> bool, s: string)
    ensures AreRuns(sp, Split(sp, s))
    decreases |s|
  {
    var t := DropLeading(sp, s);
    if t != [] {
      var w := Run(sp, t);
      var rest := t[|w|..];
      var ws := Split(sp, rest);
      assert Split(sp, s) == [w] + ws;
      RunHasNoClass(sp, t);
      SplitGivesRuns(sp, rest);
      forall i | 0 <= i < |[w] + ws|
        ensures ([w] + ws)[i] != [] && NoneIn(sp, ([w] + ws)[i])
      {
        if i > 0 {
          assert ([w] + ws)[i] == ws[i - 1];
        }
      }
    }
  }

  lemma {:induction false} DropLeadingAfterClass(sp: char -> bool, p: string, y: string)
    requires AllIn(sp, p)
    ensures DropLeading(sp, p + y) == DropLeading(sp, y)
    decreases |p|
  {
    if p != [] {
      assert (p + y)[1..] == p[1..] + y;
      DropLeadingAfterClass(sp, p[1..], y);
    } else {
      assert p + y == y;
    }
  }

  lemma {:induction false} DropTrailingAppend(sp: char -> bool, a: string, b: string)
    requires DropTrailing(sp, b) != [] || a == [] || !sp(a[|a| - 1])
    ensures DropTrailing(sp, a + b) == a + DropTrailing(sp, b)
    decreases |b|
  {
    if b == [] {
      assert a + b == a;
    } else if !sp(b[|b| - 1]) {
      assert (a + b)[|a + b| - 1] == b[|b| - 1];
    } else {
      assert (a + b)[..|a + b| - 1] == a + b[..|b| - 1];
      DropTrailingAppend(sp, a, b[..|b| - 1]);
    }
  }

  lemma {:induction false} RunAppend(sp: char -> bool, w: string, y: string)
    requires NoneIn(sp, w)
    requires y == [] || sp(y[0])
    ensures Run(sp, w + y) == w
    decreases |w|
  {
    if w == [] {
      assert w + y == y;
    } else {
      assert (w + y)[1..] == w[1..] + y;
      RunAppend(sp, w[1..], y);
    }
  }

  lemma SplitAppend(sp: char -> bool, w: string, y: string)
    requires w != [] && NoneIn(sp, w)
    requires y == [] || sp(y[0])
    ensures Split(sp, w + y) == [w] + Split(sp, y)
  {
    assert DropLeading(sp, w + y) == w + y;
    RunAppend(sp, w, y);
    assert (w + y)[|w|..] == y;
  }

  lemma SplitAfterClass(sp: char -> bool, p: string, y: string)
    requires AllIn(sp, p)
    ensures Split(sp, p + y) == Split(sp, y)
  {
    DropLeadingAfterClass(sp, p, y);
    assert DropLeading(sp, DropLeading(sp, y)) == DropLeading(sp, y);
  }

  lemma {:induction false} CollapseRun(sp: char -> bool, w: string, y: string)
    requires NoneIn(sp, w)
    ensures CollapseRuns(sp, w + y) == w + CollapseRuns(sp, y)
    decreases |w|
  {
    if w == [] {
      assert w + y == y;
    } else {
      var t := w[1..];
      assert (w + y)[1..] == t + y by {
        ConcatTail(w, y);
      }
      assert CollapseRuns(sp, w + y) == [w[0]] + CollapseRuns(sp, t + y) by {
        assert (w + y)[0] == w[0];
      }
      CollapseRun(sp, t, y);
      ConcatAssoc([w[0]], t, CollapseRuns(sp, y));
      HeadTail(w);
    }
  }

  lemma JoinCons(w: string, ws: seq<string>)
    requires ws != []
    ensures JoinSpaces([w] + ws) == w + " " + JoinSpaces(ws)
  {
    assert ([w] + ws)[1..] == ws;
  }

  lemma SplitNonEmpty(sp: char -> bool, u: string)
    requires u != [] && !sp(u[0])
    ensures Split(sp, u) != []
  {
  }

  lemma SplitDropLeading(sp: char -> bool, s: string)
    ensures Split(sp, DropLeading(sp, s)) == Split(sp, s)
  {
    var t := DropLeading(sp, s);
    assert DropLeading(sp, t) == t;
  }

  lemma {:induction false} DropLeadingKeepsLast(sp: char -> bool, s: string)
    requires s != [] && !sp(s[|s| - 1])
    ensures DropLeading(sp, s) != []
    ensures DropLeading(sp, s)[|DropLeading(sp, s)| - 1] == s[|s| - 1]
    ensures TrimmedBy(sp, DropLeading(sp, s))
    decreases |s|
  {
    if sp(s[0]) {
      assert s[1..][|s[1..]| - 1] == s[|s| - 1];
      DropLeadingKeepsLast(sp, s[1..]);
    }
  }

  lemma CollapseAfterRun(sp: char -> bool, w: string, rest: string)
    requires NoneIn(sp, w)
    requires rest != [] && sp(rest[0])
    ensures CollapseRuns(sp, w + rest) == w + " " + CollapseRuns(sp, DropLeading(sp, rest))
  {
    var c := CollapseRuns(sp, DropLeading(sp, rest));
    assert CollapseRuns(sp, w + rest) == w + CollapseRuns(sp, rest) by {
      CollapseRun(sp, w, rest);
    }
    assert CollapseRuns(sp, rest) == " " + c;
    ConcatAssoc(w, " ", c);
  }

  lemma SplitAfterRun(sp: char -> bool, w: string, rest: string)
    requires w != [] && NoneIn(sp, w)
    requires rest != [] && sp(rest[0])
    ensures Split(sp, w + rest) == [w] + Split(sp, DropLeading(sp, rest))
  {
    SplitAppend(sp, w, rest);
    SplitDropLeading(sp, rest);
  }

  lemma CollapseSingleRun(sp: char -> bool, w: string)
    requires w != [] && NoneIn(sp, w)
    ensures CollapseRuns(sp, w) == JoinSpaces(Split(sp, w))
  {
    CollapseRun(sp, w, []);
    SplitAppend(sp, w, []);
    assert w + [] == w;
  }

  /** One induction step of CollapseTrimmed: a run followed by a remainder that
      starts with a separator and ends with a run. */
  lemma CollapseTrimmedStep(sp: char -> bool, w: string, rest: string)
    requires w != [] && NoneIn(sp, w)
    requires rest != [] && sp(rest[0]) && !sp(rest[|rest| - 1])
    requires CollapseRuns(sp, DropLeading(sp, rest)) == JoinSpaces(Split(sp, DropLeading(sp, rest)))
    ensures CollapseRuns(sp, w + rest) == JoinSpaces(Split(sp, w + rest))
  {
    var u := DropLeading(sp, rest);
    CollapseAfterRun(sp, w, rest);
    SplitAfterRun(sp, w, rest);
    DropLeadingKeepsLast(sp, rest);
    SplitNonEmpty(sp, u);
    JoinCons(w, Split(sp, u));
  }

  lemma {:induction false} CollapseTrimmed(sp: char -> bool, t: string)
    requires TrimmedBy(sp, t)
    ensures CollapseRuns(sp, t) == JoinSpaces(Split(sp, t))
    decreases |t|
  {
    if t != [] {
      var w := Run(sp, t);
      var rest := t[|w|..];
      assert t == w + rest;
      RunHasNoClass(sp, t);
      if rest == [] {
        assert t == w;
        CollapseSingleRun(sp, w);
      } else {
        assert rest[|rest| - 1] == t[|t| - 1];
        DropLeadingKeepsLast(sp, rest);
        CollapseTrimmed(sp, DropLeading(sp, rest));
        CollapseTrimmedStep(sp, w, rest);
      }
    }
  }

  lemma {:induction false} DropTrailingOfClass(sp: char -> bool, x: string)
    requires AllIn(sp, x)
    ensures DropTrailing(sp, x) == []
    decreases |x|
  {
    if x != [] {
      assert sp(x[|x| - 1]);
      DropTrailingOfClass(sp, x[..|x| - 1]);
    }
  }

  lemma {:induction false} DropTrailingKeepsFirst(sp: char -> bool, t: string)
    requires t != [] && !sp(t[0])
    ensures DropTrailing(sp, t) != []
    decreases |t|
  {
    if sp(t[|t| - 1]) {
      DropTrailingKeepsFirst(sp, t[..|t| - 1]);
    }
  }

  lemma DropTrailingStartsLikeInput(sp: char -> bool, rest: string)
    requires rest == [] || sp(rest[0])
    ensures DropTrailing(sp, rest) == [] || sp(DropTrailing(sp, rest)[0])
  {
  }

  /** One induction step of SplitDropTrailing: a run followed by a remainder that is
      empty or starts with a separator. */
  lemma SplitDropTrailingStep(sp: char -> bool, w: string, rest: string)
    requires w != [] && NoneIn(sp, w)
    requires rest == [] || sp(rest[0])
    requires Split(sp, DropTrailing(sp, rest)) == Split(sp, rest)
    ensures Split(sp, DropTrailing(sp, w + rest)) == Split(sp, w + rest)
  {
    var rr := DropTrailing(sp, rest);
    DropTrailingAppend(sp, w, rest);
    DropTrailingStartsLikeInput(sp, rest);
    SplitAppend(sp, w, rr);
    SplitAppend(sp, w, rest);
  }

  lemma SplitDropTrailingOfRun(sp: char -> bool, t: string)
    requires t != [] && !sp(t[0])
    requires var rest := t[|Run(sp, t)|..];
      Split(sp, DropTrailing(sp, rest)) == Split(sp, rest)
    ensures Split(sp, DropTrailing(sp, t)) == Split(sp, t)
  {
    var w := Run(sp, t);
    var rest := t[|w|..];
    assert w != [] && NoneIn(sp, w) by {
      RunHasNoClass(sp, t);
    }
    assert rest == [] || sp(rest[0]);
    assert w + rest == t by {
      SliceJoin(t, |w|);
    }
    SplitDropTrailingStep(sp, w, rest);
  }

  lemma SplitDropTrailingAfterClass(sp: char -> bool, p: string, t: string)
    requires AllIn(sp, p)
    requires t != [] && !sp(t[0])
    requires Split(sp, DropTrailing(sp, t)) == Split(sp, t)
    ensures Split(sp, DropTrailing(sp, p + t)) == Split(sp, p + t)
  {
    DropTrailingKeepsFirst(sp, t);
    DropTrailingAppend(sp, p, t);
    SplitAfterClass(sp, p, DropTrailing(sp, t));
    SplitAfterClass(sp, p, t);
  }

  lemma {:induction false} SplitDropTrailing(sp: char -> bool, x: string)
    ensures Split(sp, DropTrailing(sp, x)) == Split(sp, x)
    decreases |x|
  {
    var t := DropLeading(sp, x);
    var p := x[..|x| - |t|];
    assert x == p + t by {
      DropLeadingSuffix(sp, x);
      SliceJoin(x, |x| - |t|);
    }
    assert AllIn(sp, p) by {
      forall i | 0 <= i < |p|
        ensures sp(p[i])
      {
        DropLeadingDropsOnlyClass(sp, x, i);
        assert p[i] == x[i];
      }
    }
    if t == [] {
      assert x == p;
      DropTrailingOfClass(sp, x);
    } else {
      SplitDropTrailing(sp, t[|Run(sp, t)|..]);
      SplitDropTrailingOfRun(sp, t);
      SplitDropTrailingAfterClass(sp, p, t);
    }
  }

  lemma {:induction false} JoinCanonical(sp: char -> bool, ws: seq<string>)
    requires AreRuns(sp, ws)
    ensures CanonicalBy(sp, JoinSpaces(ws))
    decreases |ws|
  {
    if |ws| == 1 {
      assert NoneIn(sp, ws[0]);
    } else if |ws| >= 2 {
      var w := ws[0];
      var r := JoinSpaces(ws[1..]);
      assert NoneIn(sp, w) && w != [];
      JoinCanonical(sp, ws[1..]);
      var j := w + " " + r;
      assert JoinSpaces(ws) == j;
      assert r != [] && r[0] == ws[1][0] by {
        if |ws[1..]| != 1 {
          assert r == ws[1] + " " + JoinSpaces(ws[2..]);
        }
      }
      forall i | 0 <= i < |j| && sp(j[i])
        ensures j[i] == ' '
      {
        if i > |w| {
          assert j[i] == r[i - |w| - 1];
        }
      }
      forall i | 0 <= i < |j| - 1
        ensures !sp(j[i]) || !sp(j[i + 1])
      {
        if i > |w| {
          assert j[i] == r[i - |w| - 1];
          assert j[i + 1] == r[i - |w|];
        } else if i == |w| {
          assert j[i + 1] == r[0];
        }
      }
      assert j[|j| - 1] == r[|r| - 1];
    }
  }

  lemma SplitOfRun(sp: char -> bool, w: string)
    requires w != [] && NoneIn(sp, w)
    ensures Split(sp, w) == [w]
  {
    SplitAppend(sp, w, []);
    assert w + [] == w;
  }

  lemma SplitAfterSpace(sp: char -> bool, w: string, rest: string)
    requires sp(' ')
    requires w != [] && NoneIn(sp, w)
    ensures Split(sp, w + " " + rest) == [w] + Split(sp, rest)
  {
    assert w + " " + rest == w + (" " + rest) by {
      ConcatAssoc(w, " ", rest);
    }
    assert Split(sp, w + (" " + rest)) == [w] + Split(sp, " " + rest) by {
      SplitAppend(sp, w, " " + rest);
    }
    assert Split(sp, " " + rest) == Split(sp, rest) by {
      assert AllIn(sp, " ");
      SplitAfterClass(sp, " ", rest);
    }
  }

  lemma RunsTail(sp: char -> bool, ws: seq<string>)
    requires AreRuns(sp, ws) && ws != []
    ensures AreRuns(sp, ws[1..])
  {
    forall i | 0 <= i < |ws[1..]|
      ensures ws[1..][i] != [] && NoneIn(sp, ws[1..][i])
    {
      assert ws[1..][i] == ws[i + 1];
    }
  }

  /** Concatenation is associative. */
  lemma ConcatAssoc<T>(a: seq<T>, b: seq<T>, c: seq<T>)
    ensures a + b + c == a + (b + c)
  {
  }

  /** Cutting a sequence in two and joining the halves gives it back. */
  lemma SliceJoin<T>(s: seq<T>, k: nat)
    requires k <= |s|
    ensures s[..k] + s[k..] == s
  {
  }

  /** Dropping the first element of a concatenation drops it from the left part. */
  lemma ConcatTail<T>(a: seq<T>, b: seq<T>)
    requires a != []
    ensures (a + b)[1..] == a[1..] + b
  {
  }

  /** A non-empty sequence is its head followed by its tail. */
  lemma HeadTail<T>(s: seq<T>)
    requires s != []
    ensures [s[0]] + s[1..] == s
  {
  }

  /** Splitting a single-space join of runs gives the runs back. */
  lemma {:induction false} SplitOfJoin(sp: char -> bool, ws: seq<string>)
    requires sp(' ')
    requires AreRuns(sp, ws)
    ensures Split(sp, JoinSpaces(ws)) == ws
    decreases |ws|
  {
    if |ws| == 1 {
      SplitOfRun(sp, ws[0]);
    } else if |ws| >= 2 {
      var j := JoinSpaces(ws[1..]);
      assert JoinSpaces(ws) == ws[0] + " " + j;
      RunsTail(sp, ws);
      SplitOfJoin(sp, ws[1..]);
      assert ws[0] != [] && NoneIn(sp, ws[0]);
      SplitAfterSpace(sp, ws[0], j);
      HeadTail(ws);
    }
  }
}
