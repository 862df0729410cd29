/** The `std::string` operations the generator is built from, stated over
    `seq<char>`: substring and character searches with their "npos" outcome
    as `None`, `substr` with the library's clamping of the count, the
    whitespace class of `isspace`, `istringstream` word extraction, joins,
    and decimal rendering of a line number.

    Positions in the C++ code are `size_t` values. Where the code relies on
    their wrap-around (`npos + 1 == 0`, `e - 1` with `e == 0`, a count that
    underflows), the model uses `SizeDiff` and `NPOS` explicitly. */
module Text {
  import opened Results

  /** `size_t` is 64 bits wide. */
  const SIZE_T_MODULUS: int := 0x1_0000_0000_0000_0000

  /** `std::string::npos`, the largest `size_t`. */
  const NPOS: nat := 0xFFFF_FFFF_FFFF_FFFF

  /** A string short enough for every position in it, and one past its end,
      to be a `size_t` other than `npos` (`max_size()` is below `npos`). */
  predicate Addressable(s: string) {
    |s| < NPOS
  }

  /** Subtraction of two `size_t` values, wrapping below zero. */
  function SizeDiff(a: nat, b: nat): (r: nat)
    ensures r < SIZE_T_MODULUS
    ensures b <= a < SIZE_T_MODULUS ==> r == a - b
    ensures a < b && b - a < SIZE_T_MODULUS ==> r == SIZE_T_MODULUS - (b - a)
  {
    (a - b) % SIZE_T_MODULUS
  }

  /** A found position turned into a `size_t`, `npos` when nothing was found. */
  function PosOrNpos(o: Option<nat>): nat {
    match o
    case Some(i) => i
    case None => NPOS
  }

  /** `rfind(...) + 1`: the position just after a found index, and 0 when the
      search returned `npos` (since `npos + 1` wraps to 0). */
  function StartAfter(o: Option<nat>): (r: nat)
    ensures o.None? ==> r == 0
    ensures o.Some? ==> r == o.value + 1
  {
    match o
    case Some(i) => i + 1
    case None => 0
  }

  /** `s.substr(pos, count)`: at most `count` characters starting at `pos`.
      The library throws when `pos > s.size()`; callers establish `pos <= |s|`. */
  function Substr(s: string, pos: nat, count: nat): (r: string)
    requires pos <= |s|
    ensures |r| <= count && |r| <= |s| - pos
    ensures |r| == count || |r| == |s| - pos
    ensures r == s[pos..pos + |r|]
  {
    if count < |s| - pos then s[pos..pos + count] else s[pos..]
  }

  /** The character class of `isspace` in the "C" locale. */
  predicate IsSpace(c: char) {
    c == ' ' || c == '\t' || c == '\n' || c == '\U{0B}' || c == '\U{0C}' || c == '\r'
  }

  /** `std::all_of(s.begin(), s.end(), isspace)`; true of the empty line. */
  predicate AllSpace(s: string) {
    forall i :: 0 <= i < |s| ==> IsSpace(s[i])
  }

  /** `pat` occurs in `s` starting at index `i`. */
  predicate MatchAt(s: string, pat: string, i: nat) {
    i + |pat| <= |s| && forall k :: 0 <= k < |pat| ==> s[i + k] == pat[k]
  }

  /** `s.find(pat, from)`: the first occurrence of `pat` at or after `from`
      (see `FindIsFirstMatch`). */
  function Find(s: string, pat: string, from: nat): (r: Option<nat>)
    ensures r.Some? ==> from <= r.value && r.value + |pat| <= |s|
    decreases |s| - from
  {
    if from + |pat| > |s| then None
    else if MatchAt(s, pat, from) then Some(from)
    else Find(s, pat, from + 1)
  }

  /** `Find` returns the first occurrence at or after `from`, and `None`
      exactly when there is none. */
  lemma {:induction false} FindIsFirstMatch(s: string, pat: string, from: nat)
    ensures Find(s, pat, from).Some? ==> MatchAt(s, pat, Find(s, pat, from).value)
    ensures Find(s, pat, from).Some? ==>
              forall j :: from <= j < Find(s, pat, from).value ==> !MatchAt(s, pat, j)
    ensures Find(s, pat, from).None? ==> forall j :: from <= j ==> !MatchAt(s, pat, j)
    decreases |s| - from
  {
    if from + |pat| <= |s| && !MatchAt(s, pat, from) {
      FindIsFirstMatch(s, pat, from + 1);
    }
  }

  /** `s.find(pat) != npos`. */
  predicate Contains(s: string, pat: string) {
    Find(s, pat, 0).Some?
  }

  lemma ContainsIff(s: string, pat: string)
    ensures Contains(s, pat) <==> exists j :: MatchAt(s, pat, j)
  {
    FindIsFirstMatch(s, pat, 0);
    if !Contains(s, pat) {
      forall j ensures !MatchAt(s, pat, j) {
      }
    }
  }

  /** `s.find(c, from)` for a single character (see `FindCharIsFirst`). */
  function FindChar(s: string, c: char, from: nat): (r: Option<nat>)
    ensures r.Some? ==> from <= r.value < |s| && s[r.value] == c
    decreases |s| - from
  {
    if from >= |s| then None
    else if s[from] == c then Some(from)
    else FindChar(s, c, from + 1)
  }

  /** `FindChar` finds the first `c` at or after `from`, and `None` exactly
      when there is none. */
  lemma {:induction false} FindCharIsFirst(s: string, c: char, from: nat)
    ensures FindChar(s, c, from).Some? ==>
              forall j :: from <= j < FindChar(s, c, from).value ==> s[j] != c
    ensures FindChar(s, c, from).None? ==> forall j :: from <= j < |s| ==> s[j] != c
    decreases |s| - from
  {
    if from < |s| && s[from] != c {
      FindCharIsFirst(s, c, from + 1);
    }
  }

  /** `s.find_first_of(chars, from)` (see `FindFirstOfIsFirst`). */
  function FindFirstOf(s: string, chars: string, from: nat): (r: Option<nat>)
    ensures r.Some? ==> from <= r.value < |s| && s[r.value] in chars
    decreases |s| - from
  {
    if from >= |s| then None
    else if s[from] in chars then Some(from)
    else FindFirstOf(s, chars, from + 1)
  }

  /** `FindFirstOf` finds the first position at or after `from` holding one
      of `chars`, and `None` exactly when there is none. */
  lemma {:induction false} FindFirstOfIsFirst(s: string, chars: string, from: nat)
    ensures FindFirstOf(s, chars, from).Some? ==>
              forall j :: from <= j < FindFirstOf(s, chars, from).value ==> s[j] !in chars
    ensures FindFirstOf(s, chars, from).None? ==> forall j :: from <= j < |s| ==> s[j] !in chars
    decreases |s| - from
  {
    if from < |s| && s[from] !in chars {
      FindFirstOfIsFirst(s, chars, from + 1);
    }
  }

  /** `s.find_first_not_of(chars, from)`. */
  function FindFirstNotOf(s: string, chars: string, from: nat): (r: Option<nat>)
    ensures r.Some? ==> from <= r.value < |s| && s[r.value] !in chars
    ensures r.Some? ==> forall j :: from <= j < r.value ==> s[j] in chars
    ensures r.None? ==> forall j :: from <= j < |s| ==> s[j] in chars
    decreases |s| - from
  {
    if from >= |s| then None
    else if s[from] !in chars then Some(from)
    else FindFirstNotOf(s, chars, from + 1)
  }

  /** The last index below `n` holding `c`. */
  function LastBelow(s: string, c: char, n: nat): (r: Option<nat>)
    requires n <= |s|
    ensures r.Some? ==> r.value < n && s[r.value] == c
    ensures r.Some? ==> forall j :: r.value < j < n ==> s[j] != c
    ensures r.None? ==> forall j :: 0 <= j < n ==> s[j] != c
  {
    if n == 0 then None
    else if s[n - 1] == c then Some(n - 1)
    else LastBelow(s, c, n - 1)
  }

  /** `s.rfind(c, pos)`: the last occurrence of `c` at or before `pos`; a `pos`
      beyond the end (such as `npos`) searches the whole string. */
  function RFindChar(s: string, c: char, pos: nat): (r: Option<nat>)
    ensures r.Some? ==> r.value <= pos && r.value < |s| && s[r.value] == c
    ensures r.Some? ==> forall j :: r.value < j <= pos && j < |s| ==> s[j] != c
    ensures r.None? ==> forall j :: 0 <= j <= pos && j < |s| ==> s[j] != c
  {
    LastBelow(s, c, if pos < |s| then pos + 1 else |s|)
  }

  // ---------------------------------------------------------------------
  // istringstream word extraction

  /** A word as `operator>>` extracts it: non-empty, no whitespace. */
  predicate IsWord(w: string) {
    |w| > 0 && forall i :: 0 <= i < |w| ==> !IsSpace(w[i])
  }

  /** The length of the leading run of non-whitespace characters. */
  function WordLength(s: string): (n: nat)
    ensures n <= |s|
    ensures forall i :: 0 <= i < n ==> !IsSpace(s[i])
    ensures n < |s| ==> IsSpace(s[n])
  {
    if |s| > 0 && !IsSpace(s[0]) then 1 + WordLength(s[1..]) else 0
  }

  /** The words `operator>>` reads from an `istringstream` over `s`, in
      order: leading whitespace is skipped, then a maximal run of
      non-whitespace characters is one word. */
  function Words(s: string): seq<string>
    decreases |s|
  {
    if |s| == 0 then []
    else if IsSpace(s[0]) then Words(s[1..])
    else
      var n := WordLength(s);
      [s[..n]] + Words(s[n..])
  }

  /** Every token read is a non-empty run of non-whitespace characters. */
  lemma {:induction false} WordsAreWords(s: string)
    ensures forall k :: 0 <= k < |Words(s)| ==> IsWord(Words(s)[k])
    decreases |s|
  {
    if |s| > 0 {
      if IsSpace(s[0]) {
        WordsAreWords(s[1..]);
      } else {
        var n := WordLength(s);
        var w, ws := s[..n], Words(s[n..]);
        assert IsWord(w);
        WordsAreWords(s[n..]);
        assert Words(s) == [w] + ws;
        forall k | 0 <= k < |ws| + 1 ensures IsWord(([w] + ws)[k]) {
          if k > 0 {
            assert ([w] + ws)[k] == ws[k - 1];
          }
        }
      }
    }
  }

  /** `ws` joined with `sep` between consecutive elements. */
  function Join(ws: seq<string>, sep: string): string {
    if |ws| == 0 then ""
    else if |ws| == 1 then ws[0]
    else ws[0] + sep + Join(ws[1..], sep)
  }

  lemma {:induction false} JoinSnoc(ws: seq<string>, w: string, sep: string)
    requires |ws| > 0
    ensures Join(ws + [w], sep) == Join(ws, sep) + sep + w
    decreases |ws|
  {
    if |ws| == 1 {
      assert ws + [w] == [ws[0], w];
      assert ([ws[0], w])[1..] == [w];
    } else {
      assert (ws + [w])[1..] == ws[1..] + [w];
      JoinSnoc(ws[1..], w, sep);
    }
  }

  /** Whitespace in front of the input does not change the words read. */
  lemma WordsSkipSpace(c: char, rest: string)
    requires IsSpace(c)
    ensures Words([c] + rest) == Words(rest)
  {
    assert ([c] + rest)[1..] == rest;
  }

  /** The word length of a word followed by whitespace or nothing is the
      length of that word. */
  lemma {:induction false} WordLengthOfWord(w: string, rest: string)
    requires IsWord(w) && (|rest| == 0 || IsSpace(rest[0]))
    ensures WordLength(w + rest) == |w|
    decreases |w|
  {
    if |w| > 1 {
      assert (w + rest)[1..] == w[1..] + rest;
      WordLengthOfWord(w[1..], rest);
    } else {
      assert (w + rest)[1..] == rest;
    }
  }

  /** One word followed by whitespace and more input reads as that word
      followed by the words of the rest. */
  lemma WordsCons(w: string, c: char, rest: string)
    requires IsWord(w) && IsSpace(c)
    ensures Words(w + [c] + rest) == [w] + Words(rest)
  {
    var s := w + ([c] + rest);
    assert w + [c] + rest == s;
    WordLengthOfWord(w, [c] + rest);
    assert s[0] == w[0];
    assert s[..|w|] == w;
    assert s[|w|..] == [c] + rest;
    WordsSkipSpace(c, rest);
  }

  lemma WordsOfSingleWord(w: string)
    requires IsWord(w)
    ensures Words(w) == [w]
  {
    WordLengthOfWord(w, []);
    assert w + [] == w;
    assert w[..|w|] == w;
    assert w[|w|..] == [];
  }

  /** Reading words back from words joined by single spaces gives the same
      words: `Words` inverts `Join(_, " ")`. */
  lemma {:induction false} WordsOfJoin(ws: seq<string>)
    requires forall k :: 0 <= k < |ws| ==> IsWord(ws[k])
    ensures Words(Join(ws, " ")) == ws
    decreases |ws|
  {
    if |ws| == 0 {
      assert Join(ws, " ") == "";
    } else if |ws| == 1 {
      WordsOfSingleWord(ws[0]);
    } else {
      var tail := Join(ws[1..], " ");
      assert Join(ws, " ") == ws[0] + [' '] + tail;
      WordsCons(ws[0], ' ', tail);
      WordsOfJoin(ws[1..]);
      assert ws == [ws[0]] + ws[1..];
    }
  }

  /** All strings of `ss`, one after the other. */
  function Concat(ss: seq<string>): string {
    if |ss| == 0 then "" else ss[0] + Concat(ss[1..])
  }

  lemma {:induction false} ConcatAppend(a: seq<string>, b: seq<string>)
    ensures Concat(a + b) == Concat(a) + Concat(b)
    decreases |a|
  {
    if |a| == 0 {
      assert a + b == b;
    } else {
      assert (a + b)[1..] == a[1..] + b;
      ConcatAppend(a[1..], b);
    }
  }

  // ---------------------------------------------------------------------
  // decimal rendering, as `operator<<` writes a `size_t`

  function DigitChar(d: nat): (c: char)
    requires d < 10
    ensures '0' <= c <= '9'
  {
    ['0', '1', '2', '3', '4', '5', '6', '7', '8', '9'][d]
  }

  function DigitValue(c: char): nat
    requires '0' <= c <= '9'
  {
    (c as int - '0' as int) as nat
  }

  predicate IsDecimal(s: string) {
    |s| > 0 && forall i :: 0 <= i < |s| ==> '0' <= s[i] <= '9'
  }

  /** The value a string of decimal digits denotes. */
  function DecimalValue(s: string): nat
    requires forall i :: 0 <= i < |s| ==> '0' <= s[i] <= '9'
  {
    if |s| == 0 then 0 else 10 * DecimalValue(s[..|s| - 1]) + DigitValue(s[|s| - 1])
  }

  /** The decimal text of `n`, without leading zeros. */
  function NatToDecimal(n: nat): (r: string)
    ensures IsDecimal(r)
    ensures DecimalValue(r) == n
    ensures |r| > 1 ==> r[0] != '0'
  {
    if n < 10 then
      assert DigitValue(DigitChar(n)) == n;
      [DigitChar(n)]
    else
      var r := NatToDecimal(n / 10) + [DigitChar(n % 10)];
      assert r[..|r| - 1] == NatToDecimal(n / 10);
      assert DigitValue(DigitChar(n % 10)) == n % 10;
      r
  }
}
