/** The text helpers both generations of the generator share: the template
    renderer `typesafe_sprintf`, `replace_all`, `lines_to_string`, the
    configuration splitter `break_lines_by_properties` with its
    `get_line_until` reader, and the blank/comment line filter of the
    earlier generation.

    Values handed to the renderer are modelled as already-rendered text: the
    precision opcodes after `%` only change how numbers are printed. */
module Spellbook {
  import opened Results
  import opened Text

  // ---------------------------------------------------------------------
  // replace_all

  /** `replace_all(s, from, to)`: every occurrence of `from`, found left to
      right without overlap, replaced by `to`. The search resumes after the
      inserted `to`, so inserted text is never searched again. An empty
      `from` would make the source loop forever, hence the requirement. */
  function ReplaceAll(s: string, from: string, to: string): string
    requires |from| > 0
    decreases |s|, 1
  {
    ReplaceFound(s, from, to, Find(s, from, 0))
  }

  /** The step of `replace_all` once the search has returned `found`. */
  function ReplaceFound(s: string, from: string, to: string, found: Option<nat>): string
    requires |from| > 0
    requires found.Some? ==> found.value + |from| <= |s|
    decreases |s|, 0
  {
    match found
    case None => s
    case Some(i) => s[..i] + to + ReplaceAll(s[i + |from|..], from, to)
  }

  /** The occurrences of `pat` in a suffix are those of the whole string,
      shifted. */
  lemma MatchAtSuffix(s: string, pat: string, k: nat, j: nat)
    requires k <= |s|
    ensures MatchAt(s[k..], pat, j) <==> MatchAt(s, pat, k + j)
  {
    if k + j + |pat| <= |s| {
      assert s[k..][j..j + |pat|] == s[k + j..k + j + |pat|];
    }
  }

  /** An occurrence in a prefix is an occurrence in the whole string. */
  lemma MatchAtPrefix(s: string, pat: string, n: nat, j: nat)
    requires n <= |s|
    ensures MatchAt(s[..n], pat, j) ==> MatchAt(s, pat, j)
  {
    if MatchAt(s[..n], pat, j) {
      forall k | 0 <= k < |pat| ensures s[j + k] == pat[k] {
        assert s[..n][j + k] == s[j + k];
      }
    }
  }

  /** `s.find(pat, k)` is the search of the suffix `s[k..]`, shifted by `k`. */
  lemma FindInSuffix(s: string, pat: string, k: nat)
    requires k <= |s|
    ensures Find(s, pat, k).Some? <==> Find(s[k..], pat, 0).Some?
    ensures Find(s, pat, k).Some? ==> Find(s, pat, k).value == k + Find(s[k..], pat, 0).value
  {
    var a := Find(s, pat, k);
    var b := Find(s[k..], pat, 0);
    FindIsFirstMatch(s, pat, k);
    FindIsFirstMatch(s[k..], pat, 0);
    if a.Some? {
      MatchAtSuffix(s, pat, k, a.value - k);
      if b.Some? {
        MatchAtSuffix(s, pat, k, b.value);
      }
    } else if b.Some? {
      MatchAtSuffix(s, pat, k, b.value);
    }
  }

  lemma ReplaceAllUnfold(s: string, from: string, to: string, i: nat)
    requires |from| > 0 && Find(s, from, 0) == Some(i)
    ensures i + |from| <= |s|
    ensures ReplaceAll(s, from, to) == s[..i] + to + ReplaceAll(s[i + |from|..], from, to)
  {
    assert ReplaceAll(s, from, to) == ReplaceFound(s, from, to, Some(i));
    ReplaceFoundStep(s, from, to, i);
  }

  lemma ReplaceFoundStep(s: string, from: string, to: string, i: nat)
    requires |from| > 0 && i + |from| <= |s|
    ensures ReplaceFound(s, from, to, Some(i)) == s[..i] + to + ReplaceAll(s[i + |from|..], from, to)
  {
  }

  /** One turn of the `replace_all` loop keeps the remaining work
      unchanged: what is left after the resume position, once replaced,
      completes the same result. */
  lemma ReplaceAllResume(str: string, from: string, to: string, start: nat, i: nat, next: string)
    requires |from| > 0 && start <= |str|
    requires Find(str, from, start) == Some(i)
    requires i + |from| <= |str| && next == str[..i] + to + str[i + |from|..]
    ensures str[..start] + ReplaceAll(str[start..], from, to)
            == next[..i + |to|] + ReplaceAll(next[i + |to|..], from, to)
  {
    FindInSuffix(str, from, start);
    var tail := str[start..];
    var rest := str[i + |from|..];
    ReplaceAllUnfold(tail, from, to, i - start);
    assert tail[..i - start] == str[start..i];
    assert tail[i - start + |from|..] == rest;
    SpliceAlgebra(str, to, start, i, |from|, next, ReplaceAll(rest, from, to));
  }

  /** The string identities behind one turn of the loop, for any text `r`
      standing for the rest once replaced. */
  lemma SpliceAlgebra(str: string, to: string, start: nat, i: nat, n: nat, next: string, r: string)
    requires start <= i && i + n <= |str| && next == str[..i] + to + str[i + n..]
    ensures str[..start] + (str[start..i] + to + r) == next[..i + |to|] + r
    ensures next[i + |to|..] == str[i + n..]
  {
    assert str[..start] + str[start..i] == str[..i];
    assert next[..i + |to|] == str[..i] + to;
  }

  /** The loop of `replace_all`, on a mutable string with a resume position,
      computes `ReplaceAll`. */
  method ReplaceAllLoop(s: string, from: string, to: string) returns (str: string)
    requires |from| > 0
    ensures str == ReplaceAll(s, from, to)
  {
    str := s;
    var start: nat := 0;
    var found := Find(str, from, start);
    while found.Some?
      invariant start <= |str|
      invariant found == Find(str, from, start)
      invariant str[..start] + ReplaceAll(str[start..], from, to) == ReplaceAll(s, from, to)
      decreases |str| - start
    {
      var i := found.value;
      var next := str[..i] + to + str[i + |from|..];
      ReplaceAllResume(str, from, to, start, i, next);
      str := next;
      start := i + |to|;
      found := Find(str, from, start);
    }
    FindInSuffix(str, from, start);
    assert str[..start] + str[start..] == str;
  }

  /** When `from` does not occur, `replace_all` returns its input. */
  lemma ReplaceAllAbsent(s: string, from: string, to: string)
    requires |from| > 0 && !Contains(s, from)
    ensures ReplaceAll(s, from, to) == s
  {
  }

  /** Replacing a string by itself changes nothing. */
  lemma {:induction false} ReplaceAllIdentity(s: string, from: string)
    requires |from| > 0
    ensures ReplaceAll(s, from, from) == s
    decreases |s|
  {
    match Find(s, from, 0)
    case None =>
    case Some(i) =>
      FindIsFirstMatch(s, from, 0);
      ReplaceAllUnfold(s, from, from, i);
      ReplaceAllIdentity(s[i + |from|..], from);
      assert s[i..i + |from|] == from;
      assert s[..i] + s[i..i + |from|] + s[i + |from|..] == s;
  }

  /** No character of `t` occurs in `f`. */
  predicate SharesNoChar(t: string, f: string) {
    forall k :: 0 <= k < |t| ==> t[k] !in f
  }

  ghost predicate NoMatch(s: string, f: string) {
    forall j :: !MatchAt(s, f, j)
  }

  lemma NoMatchAround(x: string, t: string, y: string, f: string)
    requires |f| > 0 && |t| > 0 && SharesNoChar(t, f)
    requires NoMatch(x, f) && NoMatch(y, f)
    ensures NoMatch(x + t + y, f)
  {
    var r := x + t + y;
    forall j: nat ensures !MatchAt(r, f, j) {
      if j + |f| > |r| {
      } else if j + |f| <= |x| {
        assert r[j..j + |f|] == x[j..j + |f|];
        assert !MatchAt(x, f, j);
      } else if j < |x| + |t| {
        var p := if j < |x| then |x| else j;
        var w := r[j..j + |f|];
        assert w[p - j] == t[p - |x|];
        assert w[p - j] !in f;
        assert f[p - j] in f;
      } else {
        var q := j - |x| - |t|;
        assert r[j..j + |f|] == y[q..q + |f|];
        assert !MatchAt(y, f, q);
      }
    }
  }

  /** When the replacement is non-empty and shares no character with `from`,
      no occurrence of `from` is left: `replace_all(name, "::", "_")` leaves no
      `::` behind. */
  lemma {:induction false} ReplaceAllRemovesAll(s: string, from: string, to: string)
    requires |from| > 0 && |to| > 0 && SharesNoChar(to, from)
    ensures !Contains(ReplaceAll(s, from, to), from)
    decreases |s|
  {
    FindIsFirstMatch(s, from, 0);
    match Find(s, from, 0)
    case None =>
      ContainsIff(s, from);
    case Some(i) =>
      var rest := s[i + |from|..];
      ReplaceAllUnfold(s, from, to, i);
      ReplaceAllRemovesAll(rest, from, to);
      ContainsIff(ReplaceAll(rest, from, to), from);
      forall j: nat ensures !MatchAt(s[..i], from, j) {
        MatchAtPrefix(s, from, i, j);
      }
      NoMatchAround(s[..i], to, ReplaceAll(rest, from, to), from);
      ContainsIff(ReplaceAll(s, from, to), from);
  }

  // ---------------------------------------------------------------------
  // typesafe_sprintf

  /** No placeholder sigil in `s`. */
  predicate NoPercent(s: string) {
    forall i :: 0 <= i < |s| ==> s[i] != '%'
  }

  /** `target.replace(p, 2, v)`: the two characters at `p` (fewer at the end
      of the string) replaced by `v`. */
  function Substitute(target: string, p: nat, v: string): string
    requires p < |target|
  {
    target[..p] + v + target[if p + 2 <= |target| then p + 2 else |target|..]
  }

  /** `typesafe_sprintf_detail(pos, target, vals...)`: the next `%` at or
      after `pos` takes the next value and the search resumes where that
      value was inserted; once no `%` is left, the remaining values are
      dropped. */
  function SprintfFrom(pos: nat, target: string, vals: seq<string>): string
    decreases |vals|
  {
    if |vals| == 0 then target
    else
      match FindChar(target, '%', pos)
      case None => target
      case Some(p) => SprintfFrom(p, Substitute(target, p, vals[0]), vals[1..])
  }

  /** `typesafe_sprintf(fmt, vals...)`. */
  function Sprintf(fmt: string, vals: seq<string>): string {
    SprintfFrom(0, fmt, vals)
  }

  /** Without values, or without any `%` left to fill, the text is returned
      as it is and extra values are ignored. */
  lemma SprintfUnchanged(pos: nat, target: string, vals: seq<string>)
    requires |vals| == 0 || FindChar(target, '%', pos).None?
    ensures SprintfFrom(pos, target, vals) == target
  {
  }

  lemma SprintfNoPlaceholder(fmt: string, vals: seq<string>)
    requires NoPercent(fmt)
    ensures Sprintf(fmt, vals) == fmt
  {
    FindCharIsFirst(fmt, '%', 0);
  }

  /** Searching `x + y` from a point of `x` after which `x` holds no `%`
      finds the first `%` of `y`, shifted. */
  lemma FindPercentPast(x: string, y: string, k: nat)
    requires k <= |x| && NoPercent(x[k..])
    ensures FindChar(x + y, '%', k).Some? <==> FindChar(y, '%', 0).Some?
    ensures FindChar(x + y, '%', k).Some? ==>
              FindChar(x + y, '%', k).value == |x| + FindChar(y, '%', 0).value
  {
    var a := FindChar(x + y, '%', k);
    var b := FindChar(y, '%', 0);
    FindCharIsFirst(x + y, '%', k);
    FindCharIsFirst(y, '%', 0);
    if a.Some? {
      assert y[a.value - |x|] == '%';
    }
    if b.Some? {
      assert (x + y)[|x| + b.value] == y[b.value];
    }
  }

  /** The renderer is compositional: once the search has passed a prefix
      holding no `%`, the rest of the text is rendered on its own. */
  lemma {:induction false} SprintfPrefix(x: string, y: string, k: nat, vals: seq<string>)
    requires k <= |x| && NoPercent(x[k..])
    ensures SprintfFrom(k, x + y, vals) == x + SprintfFrom(0, y, vals)
    decreases |vals|, 2
  {
    if |vals| > 0 {
      FindPercentPast(x, y, k);
      match FindChar(y, '%', 0)
      case None =>
      case Some(q) => SprintfPrefixFill(x, y, k, vals, q);
    }
  }

  /** `SprintfPrefix` when `y` holds a placeholder at `q`: both sides fill it
      first. */
  lemma {:induction false} SprintfPrefixFill(x: string, y: string, k: nat, vals: seq<string>, q: nat)
    requires k <= |x| && |vals| > 0 && q < |y|
    requires FindChar(y, '%', 0) == Some(q) && FindChar(x + y, '%', k) == Some(|x| + q)
    ensures SprintfFrom(k, x + y, vals) == x + SprintfFrom(0, y, vals)
    decreases |vals|, 1
  {
    SprintfFillAt(x, y, k, vals, q);
    SprintfFillFront(y, vals, q);
  }

  /** `SprintfFillAt` with nothing in front. */
  lemma {:induction false} SprintfFillFront(y: string, vals: seq<string>, q: nat)
    requires |vals| > 0 && q < |y| && FindChar(y, '%', 0) == Some(q)
    ensures SprintfFrom(0, y, vals) == y[..q] + SprintfFrom(0, Substitute(y, q, vals[0])[q..], vals[1..])
    decreases |vals|, 0
  {
    var y' := Substitute(y, q, vals[0]);
    var head, tail, more := y[..q], y'[q..], vals[1..];
    SprintfStep(0, y, vals, q);
    assert y'[..q] == head;
    assert head + tail == y';
    SprintfPrefix(head, tail, q, more);
  }

  /** Filling the placeholder found at `q` of `y`, behind a prefix `x` that
      the search has passed, leaves `x + y[..q]` in front of the rendering of
      the remaining text with the remaining values. */
  lemma {:induction false} SprintfFillAt(x: string, y: string, k: nat, vals: seq<string>, q: nat)
    requires k <= |x| && |vals| > 0 && q < |y| && FindChar(x + y, '%', k) == Some(|x| + q)
    ensures SprintfFrom(k, x + y, vals)
            == x + (y[..q] + SprintfFrom(0, Substitute(y, q, vals[0])[q..], vals[1..]))
    decreases |vals|, 0
  {
    var head, tail, more := y[..q], Substitute(y, q, vals[0])[q..], vals[1..];
    SprintfStep(k, x + y, vals, |x| + q);
    SubstituteSplit(x, y, q, vals[0]);
    SprintfPrefix(x + head, tail, |x| + q, more);
    var rest := SprintfFrom(0, tail, more);
    assert (x + head) + rest == x + (head + rest);
  }

  /** Substituting at `q` of `y` behind a prefix `x` leaves `x + y[..q]` in
      front of the substituted remainder. */
  lemma SubstituteSplit(x: string, y: string, q: nat, v: string)
    requires q < |y|
    ensures Substitute(x + y, |x| + q, v) == (x + y[..q]) + Substitute(y, q, v)[q..]
  {
    var e := if q + 2 <= |y| then q + 2 else |y|;
    assert (x + y)[..|x| + q] == x + y[..q];
    assert (x + y)[|x| + e..] == y[e..];
    assert Substitute(y, q, v)[q..] == v + y[e..];
  }

  /** One placeholder filled: the value found at `p` takes the first value
      and rendering resumes at `p` with the others. */
  lemma SprintfStep(pos: nat, target: string, vals: seq<string>, p: nat)
    requires |vals| > 0 && FindChar(target, '%', pos) == Some(p)
    ensures p < |target|
    ensures SprintfFrom(pos, target, vals) == SprintfFrom(p, Substitute(target, p, vals[0]), vals[1..])
  {
  }

  /** Left-to-right substitution: the first `%` and the character after it
      are replaced by the first value, and the rest of the format is then
      rendered with the remaining values (a value free of `%` is not searched
      again). A `%` that ends the format is replaced on its own. */
  lemma SprintfFirst(a: string, b: string, v: string, vals: seq<string>)
    requires NoPercent(a) && NoPercent(v)
    ensures Sprintf(a + "%" + b, [v] + vals) == a + v + Sprintf(b[if |b| > 0 then 1 else 0..], vals)
  {
    var f := a + "%" + b;
    assert f[|a|] == '%';
    FindCharIsFirst(f, '%', 0);
    assert FindChar(f, '%', 0) == Some(|a|);
    var rest := b[if |b| > 0 then 1 else 0..];
    assert Substitute(f, |a|, v) == (a + v) + rest;
    assert ([v] + vals)[1..] == vals;
    assert (a + v)[|a|..] == v;
    SprintfPrefix(a + v, rest, |a|, vals);
  }

  /** A format with one placeholder and one value: the value takes the place
      of the two placeholder characters whatever it contains. */
  lemma SprintfSingle(a: string, c: char, b: string, v: string)
    requires NoPercent(a)
    ensures Sprintf(a + ['%', c] + b, [v]) == a + v + b
  {
    var f := a + ['%', c] + b;
    assert f[|a|] == '%';
    FindCharIsFirst(f, '%', 0);
    assert FindChar(f, '%', 0) == Some(|a|);
    assert f[..|a|] == a;
    assert f[|a| + 2..] == b;
    assert Substitute(f, |a|, v) == a + v + b;
    assert [v][1..] == [];
    assert SprintfFrom(|a|, a + v + b, []) == a + v + b;
    assert Sprintf(f, [v]) == SprintfFrom(|a|, Substitute(f, |a|, v), [v][1..]);
  }

  /** A value is searched again once inserted: after the first placeholder
      is filled with `w`, the search resumes at the start of `w`, so a `%`
      inside `w` takes the next value before anything in the rest of the
      format does. */
  lemma SprintfRescansInsertedValue(a: string, c: char, b: string, w: string, vals: seq<string>)
    requires NoPercent(a)
    ensures Sprintf(a + ['%', c] + b, [w] + vals) == a + Sprintf(w + b, vals)
  {
    var f := a + ['%', c] + b;
    assert f[|a|] == '%';
    FindCharIsFirst(f, '%', 0);
    assert FindChar(f, '%', 0) == Some(|a|);
    SprintfStep(0, f, [w] + vals, |a|);
    assert f[..|a|] == a;
    assert f[|a| + 2..] == b;
    assert Substitute(f, |a|, w) == a + (w + b);
    assert ([w] + vals)[1..] == vals;
    assert a[|a|..] == [];
    SprintfPrefix(a, w + b, |a|, vals);
  }

  /** Only the placeholder's two characters are replaced: in `%f` followed by
      a precision digit `d`, the digit is not consumed and stays in the
      output right after the value. */
  lemma SprintfKeepsPrecisionDigit(a: string, d: char, b: string, v: string)
    requires NoPercent(a) && '0' <= d <= '9'
    ensures Sprintf(a + "%f" + [d] + b, [v]) == a + v + [d] + b
  {
    assert a + "%f" + [d] + b == a + ['%', 'f'] + ([d] + b);
    SprintfSingle(a, 'f', [d] + b, v);
    assert a + v + ([d] + b) == a + v + [d] + b;
  }

  // ---------------------------------------------------------------------
  // lines_to_string and the line reader it inverts

  /** `lines_to_string`: every line followed by a newline. */
  function LinesToString(lines: seq<string>): string {
    if |lines| == 0 then "" else lines[0] + "\n" + LinesToString(lines[1..])
  }

  /** `lines_to_string` distributes over concatenation of line lists. */
  lemma {:induction false} LinesToStringAppend(a: seq<string>, b: seq<string>)
    ensures LinesToString(a + b) == LinesToString(a) + LinesToString(b)
    decreases |a|
  {
    if |a| == 0 {
      assert a + b == b;
    } else {
      assert (a + b)[1..] == a[1..] + b;
      LinesToStringAppend(a[1..], b);
    }
  }

  /** The lines `std::getline` reads from a text: split at each newline, with
      no empty line after a final newline. */
  function SplitLines(s: string): seq<string>
    decreases |s|
  {
    if |s| == 0 then []
    else
      match FindChar(s, '\n', 0)
      case None => [s]
      case Some(i) => [s[..i]] + SplitLines(s[i + 1..])
  }

  predicate NoNewline(l: string) {
    forall i :: 0 <= i < |l| ==> l[i] != '\n'
  }

  /** Reading back what `lines_to_string` wrote gives the same lines, as long
      as no line holds a newline of its own. */
  lemma {:induction false} SplitLinesToString(lines: seq<string>)
    requires forall k :: 0 <= k < |lines| ==> NoNewline(lines[k])
    ensures SplitLines(LinesToString(lines)) == lines
    decreases |lines|
  {
    if |lines| > 0 {
      var l := lines[0];
      var rest := LinesToString(lines[1..]);
      var s := l + "\n" + rest;
      assert s[|l|] == '\n';
      FindCharIsFirst(s, '\n', 0);
      assert FindChar(s, '\n', 0) == Some(|l|);
      assert s[..|l|] == l;
      assert s[|l| + 1..] == rest;
      SplitLinesToString(lines[1..]);
      assert lines == [l] + lines[1..];
    }
  }

  // ---------------------------------------------------------------------
  // get_line_until and break_lines_by_properties

  /** One call of the `get_line_until` lambda at line `i`: whether there is a
      line to take, and the position afterwards. */
  function GetLineUntil(lines: seq<string>, i: nat, delim: string): (r: (bool, nat))
    ensures i < |lines| && delim != "" && lines[i] == delim ==> r == (false, i + 1)
    ensures i < |lines| && !(delim != "" && lines[i] == delim) ==> r == (true, i)
    ensures i >= |lines| ==> r == (false, i)
  {
    if !(i < |lines|) then (false, i)
    else if delim != "" && lines[i] == delim then (false, i + 1)
    else (true, i)
  }

  /** `while (get_line_until(delim)) group.push_back(lines[i++]);`: the lines
      from `i` up to the delimiter line or the end, and the position after
      the delimiter when one was found. */
  function CollectUntil(lines: seq<string>, i: nat, delim: string): (r: (seq<string>, nat))
    requires i <= |lines|
    ensures i + |r.0| <= r.1 <= |lines| && r.1 <= i + |r.0| + 1
    ensures r.0 == lines[i..i + |r.0|]
    ensures delim != "" ==> forall k :: 0 <= k < |r.0| ==> r.0[k] != delim
    ensures r.1 == i + |r.0| ==> r.1 == |lines|
    ensures r.1 == i + |r.0| + 1 ==> delim != "" && lines[i + |r.0|] == delim
    decreases |lines| - i
  {
    var (more, j) := GetLineUntil(lines, i, delim);
    if more then
      var (g, k) := CollectUntil(lines, i + 1, delim);
      ([lines[i]] + g, k)
    else
      ([], j)
  }

  /** The groups after the first header: one per remaining header, each ended
      by that header, and a last group holding everything left. */
  function Groups(lines: seq<string>, i: nat, delims: seq<string>): (r: seq<seq<string>>)
    requires i <= |lines|
    ensures |r| == |delims| + 1
    ensures forall k :: 0 <= k < |delims| && delims[k] != "" ==> delims[k] !in r[k]
    ensures |r[|delims|]| <= |lines| && r[|delims|] == lines[|lines| - |r[|delims|]|..]
    decreases |delims|
  {
    if |delims| == 0 then
      [CollectUntil(lines, i, "").0]
    else
      var (g, j) := CollectUntil(lines, i, delims[0]);
      [g] + Groups(lines, j, delims[1..])
  }

  datatype ConfigError = FirstHeaderMismatch

  /** `break_lines_by_properties` of the final generation: the configuration
      lines split into one group per property header; a first line that is
      not the first header throws. */
  function BreakLinesByProperties(lines: seq<string>, props: seq<string>): (r: Result<seq<seq<string>>, ConfigError>)
    ensures |props| == 0 || |lines| == 0 ==> r == Success([])
    ensures |props| > 0 && |lines| > 0 ==> (r.Failure? <==> lines[0] != props[0])
    ensures |props| > 0 && |lines| > 0 && r.Success? ==> |r.value| == |props|
    ensures r.Success? ==> forall k :: 0 <= k < |r.value| - 1 && props[k + 1] != "" ==> props[k + 1] !in r.value[k]
    ensures r.Success? && |r.value| > 0 ==>
              |r.value[|r.value| - 1]| <= |lines| &&
              r.value[|r.value| - 1] == lines[|lines| - |r.value[|r.value| - 1]|..]
  {
    if |props| == 0 || |lines| == 0 then Success([])
    else if lines[0] != props[0] then Failure(FirstHeaderMismatch)
    else Success(Groups(lines, 1, props[1..]))
  }

  /** `break_lines_by_properties` of the earlier generation: a mismatching
      first line is only reported by a non-aborting `ensure`, and the groups
      are collected regardless. */
  function BreakLinesLenient(lines: seq<string>, props: seq<string>): (r: seq<seq<string>>)
    ensures |props| > 0 && |lines| > 0 ==> |r| == |props|
    ensures |props| == 0 || |lines| == 0 ==> r == []
  {
    if |props| == 0 || |lines| == 0 then [] else Groups(lines, 1, props[1..])
  }

  /** The two generations agree whenever the first header matches; otherwise
      only the final one fails. */
  lemma LenientAgreesWithStrict(lines: seq<string>, props: seq<string>)
    ensures BreakLinesByProperties(lines, props).Success? ==>
              BreakLinesByProperties(lines, props).value == BreakLinesLenient(lines, props)
    ensures BreakLinesByProperties(lines, props).Failure? ==>
              |BreakLinesLenient(lines, props)| == |props| && lines[0] != props[0]
  {
  }

  /** A configuration file laid out as header line, its group, next header
      line, its group, and so on. */
  function Layout(props: seq<string>, groups: seq<seq<string>>): seq<string>
    requires |props| == |groups|
  {
    if |props| == 0 then [] else [props[0]] + (groups[0] + Layout(props[1..], groups[1..]))
  }

  lemma LayoutCons(props: seq<string>, groups: seq<seq<string>>)
    requires |props| == |groups| && |props| > 0
    ensures Layout(props, groups) == [props[0]] + (groups[0] + Layout(props[1..], groups[1..]))
  {
  }

  /** The reader collects exactly the lines in front of the first delimiter
      line. */
  lemma {:induction false} CollectExact(lines: seq<string>, i: nat, g: seq<string>, delim: string)
    requires i + |g| < |lines| && lines[i..i + |g|] == g && lines[i + |g|] == delim
    requires delim != "" && delim !in g
    ensures CollectUntil(lines, i, delim) == (g, i + |g| + 1)
    decreases |g|
  {
    if |g| > 0 {
      assert lines[i] == g[0];
      assert lines[i + 1..i + |g|] == g[1..];
      CollectExact(lines, i + 1, g[1..], delim);
      assert [g[0]] + g[1..] == g;
    }
  }

  /** A suffix that reads as `a + b` holds `a` and then `b`. */
  lemma SplitSuffix<T>(s: seq<T>, i: nat, a: seq<T>, b: seq<T>)
    requires i <= |s| && s[i..] == a + b
    ensures i + |a| <= |s| && s[i..i + |a|] == a && s[i + |a|..] == b
  {
    assert s[i..i + |a|] == s[i..][..|a|];
    assert s[i + |a|..] == s[i..][|a|..];
  }

  lemma HeadTail<T>(s: seq<T>)
    requires |s| > 0
    ensures s == [s[0]] + s[1..]
  {
  }

  lemma GroupsStep(lines: seq<string>, i: nat, delims: seq<string>, g: seq<string>, j: nat)
    requires i <= |lines| && |delims| > 0
    requires CollectUntil(lines, i, delims[0]) == (g, j)
    ensures j <= |lines|
    ensures Groups(lines, i, delims) == [g] + Groups(lines, j, delims[1..])
  {
  }

  lemma {:induction false} GroupsOfLayout(lines: seq<string>, i: nat, delims: seq<string>, groups: seq<seq<string>>)
    requires i <= |lines| && |groups| == |delims| + 1
    requires lines[i..] == groups[0] + Layout(delims, groups[1..])
    requires forall k :: 0 <= k < |delims| ==> delims[k] != "" && delims[k] !in groups[k]
    ensures Groups(lines, i, delims) == groups
    decreases |delims|, 1
  {
    if |delims| == 0 {
      assert lines[i..] == groups[0];
      assert CollectUntil(lines, i, "").0 == lines[i..];
    } else {
      GroupsOfLayoutCons(lines, i, delims, groups);
    }
  }

  lemma {:induction false} GroupsOfLayoutCons(lines: seq<string>, i: nat, delims: seq<string>, groups: seq<seq<string>>)
    requires i <= |lines| && |groups| == |delims| + 1 && |delims| > 0
    requires lines[i..] == groups[0] + Layout(delims, groups[1..])
    requires forall k :: 0 <= k < |delims| ==> delims[k] != "" && delims[k] !in groups[k]
    ensures Groups(lines, i, delims) == groups
    decreases |delims|, 0
  {
    var g0, d, gs := groups[0], delims[0], groups[1..];
    var j := i + |g0| + 1;
    LayoutCons(delims, gs);
    LayoutSplit(lines, i, g0, d, gs[0] + Layout(delims[1..], gs[1..]));
    CollectExact(lines, i, g0, d);
    forall k | 0 <= k < |delims[1..]|
      ensures delims[1..][k] != "" && delims[1..][k] !in gs[k]
    {
      assert delims[1..][k] == delims[k + 1];
      assert gs[k] == groups[k + 1];
    }
    GroupsOfLayout(lines, j, delims[1..], gs);
    GroupsStep(lines, i, delims, g0, j);
    HeadTail(groups);
  }

  /** The lines from `i` on, laid out from `groups`, start with the first
      group and the first header, and continue with the next group. */
  lemma LayoutSplit(lines: seq<string>, i: nat, g: seq<string>, d: string, tail: seq<string>)
    requires i <= |lines| && lines[i..] == g + ([d] + tail)
    ensures i + |g| < |lines| && lines[i..i + |g|] == g && lines[i + |g|] == d
    ensures lines[i + |g| + 1..] == tail
  {
    SplitSuffix(lines, i, g, [d] + tail);
    SplitSuffix(lines, i + |g|, [d], tail);
  }

  /** Splitting a well-formed configuration file gives back the groups it was
      laid out from: every header after the first is non-empty and does not
      occur inside the group before it. */
  lemma BreakLinesOfLayout(props: seq<string>, groups: seq<seq<string>>)
    requires |props| == |groups| && |props| > 0
    requires forall k :: 1 <= k < |props| ==> props[k] != "" && props[k] !in groups[k - 1]
    ensures BreakLinesByProperties(Layout(props, groups), props) == Success(groups)
  {
    var lines := Layout(props, groups);
    LayoutHead(props, groups);
    forall k | 0 <= k < |props[1..]|
      ensures props[1..][k] != "" && props[1..][k] !in groups[k]
    {
      assert props[1..][k] == props[k + 1];
    }
    GroupsOfLayout(lines, 1, props[1..], groups);
  }

  lemma LayoutHead(props: seq<string>, groups: seq<seq<string>>)
    requires |props| == |groups| && |props| > 0
    ensures |Layout(props, groups)| > 0 && Layout(props, groups)[0] == props[0]
    ensures Layout(props, groups)[1..] == groups[0] + Layout(props[1..], groups[1..])
  {
    var rest := groups[0] + Layout(props[1..], groups[1..]);
    assert Layout(props, groups) == [props[0]] + rest;
  }

  // ---------------------------------------------------------------------
  // get_file_lines_without_blanks_and_comments

  /** The comment character the earlier generation uses by default. */
  const DEFAULT_COMMENT_CHAR: char := '%'

  /** A configuration line is kept unless it is all whitespace (the empty
      line included) or starts with the comment character. */
  predicate KeepConfigLine(line: string, comment: char) {
    !(AllSpace(line) || line[0] == comment)
  }

  /** The lines of a configuration file with blank and comment lines
      dropped. */
  function FilterConfigLines(lines: seq<string>, comment: char): (r: seq<string>)
    ensures forall k :: 0 <= k < |r| ==> KeepConfigLine(r[k], comment)
    ensures forall l :: l in r <==> l in lines && KeepConfigLine(l, comment)
    ensures |r| <= |lines|
  {
    if |lines| == 0 then []
    else if KeepConfigLine(lines[0], comment) then [lines[0]] + FilterConfigLines(lines[1..], comment)
    else FilterConfigLines(lines[1..], comment)
  }

  /** Kept lines keep their order: filtering distributes over concatenation. */
  lemma {:induction false} FilterConfigLinesAppend(a: seq<string>, b: seq<string>, comment: char)
    ensures FilterConfigLines(a + b, comment) == FilterConfigLines(a, comment) + FilterConfigLines(b, comment)
    decreases |a|
  {
    if |a| == 0 {
      assert a + b == b;
    } else {
      assert (a + b)[1..] == a[1..] + b;
      FilterConfigLinesAppend(a[1..], b, comment);
    }
  }

  /** Filtering twice drops nothing more. */
  lemma {:induction false} FilterConfigLinesIdempotent(lines: seq<string>, comment: char)
    ensures FilterConfigLines(FilterConfigLines(lines, comment), comment) == FilterConfigLines(lines, comment)
    decreases |lines|
  {
    if |lines| > 0 {
      FilterConfigLinesIdempotent(lines[1..], comment);
      if KeepConfigLine(lines[0], comment) {
        var r := FilterConfigLines(lines, comment);
        assert r[1..] == FilterConfigLines(lines[1..], comment);
      }
    }
  }
}
