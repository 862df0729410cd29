/** The namespace buckets of the final generator: a `std::map` from
    namespace name to the forward declarations collected for it, rendered
    in key order (src/main.cpp lines 111-126 and 275-277).

    The map is modelled as an association list kept strictly sorted by the
    map's key order, with `View` as the mathematical map it stands for. */
module Buckets {
  import opened Text
  import opened Spellbook

  /** The bucket of types declared outside any namespace. */
  const UNNAMED: string := "<unnamed>"

  /** `std::less<std::string>`: lexicographic order on the character codes,
      a proper prefix coming first. */
  predicate LexLess(a: string, b: string) {
    if |a| == 0 then |b| > 0
    else if |b| == 0 then false
    else if a[0] != b[0] then a[0] < b[0]
    else LexLess(a[1..], b[1..])
  }

  lemma {:induction false} LexLessIrreflexive(a: string)
    ensures !LexLess(a, a)
  {
    if |a| > 0 {
      LexLessIrreflexive(a[1..]);
    }
  }

  lemma {:induction false} LexLessTransitive(a: string, b: string, c: string)
    requires LexLess(a, b) && LexLess(b, c)
    ensures LexLess(a, c)
  {
    if |a| > 0 && |b| > 0 && |c| > 0 && a[0] == b[0] && b[0] == c[0] {
      LexLessTransitive(a[1..], b[1..], c[1..]);
    }
  }

  /** Any two different keys are ordered one way or the other. */
  lemma {:induction false} LexLessTotal(a: string, b: string)
    ensures a == b || LexLess(a, b) || LexLess(b, a)
  {
    if |a| > 0 && |b| > 0 && a[0] == b[0] {
      LexLessTotal(a[1..], b[1..]);
      if a[1..] == b[1..] {
        assert a == [a[0]] + a[1..] && b == [b[0]] + b[1..];
      }
    }
  }

  lemma LexLessAsymmetric(a: string, b: string)
    requires LexLess(a, b)
    ensures !LexLess(b, a)
  {
    if LexLess(b, a) {
      LexLessTransitive(a, b, a);
      LexLessIrreflexive(a);
    }
  }

  /** One entry of the map: a namespace and its accumulated text. */
  datatype Bucket = Bucket(key: string, text: string)

  /** Entries in strictly increasing key order, hence with distinct keys. */
  predicate Sorted(bs: seq<Bucket>) {
    forall i, j :: 0 <= i < j < |bs| ==> LexLess(bs[i].key, bs[j].key)
  }

  /** The map the entries stand for. */
  function View(bs: seq<Bucket>): map<string, string> {
    if |bs| == 0 then map[] else View(bs[1..])[bs[0].key := bs[0].text]
  }

  lemma {:induction false} ViewKeys(bs: seq<Bucket>, k: string)
    ensures k in View(bs) <==> exists i :: 0 <= i < |bs| && bs[i].key == k
  {
    if |bs| > 0 {
      ViewKeys(bs[1..], k);
      if k in View(bs[1..]) {
        var i :| 0 <= i < |bs[1..]| && bs[1..][i].key == k;
        assert bs[i + 1].key == k;
      }
      if exists i :: 0 <= i < |bs| && bs[i].key == k {
        var i :| 0 <= i < |bs| && bs[i].key == k;
        if i > 0 {
          assert bs[1..][i - 1].key == k;
        }
      }
    }
  }

  /** In sorted entries every key maps to the text of its own entry. */
  lemma {:induction false} ViewAt(bs: seq<Bucket>, i: nat)
    requires Sorted(bs) && i < |bs|
    ensures bs[i].key in View(bs) && View(bs)[bs[i].key] == bs[i].text
  {
    if i > 0 {
      ViewAt(bs[1..], i - 1);
      LexLessIrreflexive(bs[0].key);
      assert LexLess(bs[0].key, bs[i].key);
    }
  }

  /** `namespaces[key] += text`: append to the entry for `key`, creating it
      in its ordered place when it is missing. */
  function Append(bs: seq<Bucket>, key: string, text: string): seq<Bucket> {
    if |bs| == 0 then [Bucket(key, text)]
    else if bs[0].key == key then [Bucket(key, bs[0].text + text)] + bs[1..]
    else if LexLess(key, bs[0].key) then [Bucket(key, text)] + bs
    else [bs[0]] + Append(bs[1..], key, text)
  }

  /** Every key of `bs` is above `k`. */
  predicate AllAbove(bs: seq<Bucket>, k: string) {
    forall i :: 0 <= i < |bs| ==> LexLess(k, bs[i].key)
  }

  lemma SortedCons(b: Bucket, t: seq<Bucket>)
    ensures Sorted([b] + t) <==> AllAbove(t, b.key) && Sorted(t)
  {
    var s := [b] + t;
    if AllAbove(t, b.key) && Sorted(t) {
      forall i, j | 0 <= i < j < |s| ensures LexLess(s[i].key, s[j].key) {
        assert s[j] == t[j - 1];
        if i > 0 {
          assert s[i] == t[i - 1];
        }
      }
    }
    if Sorted(s) {
      forall i | 0 <= i < |t| ensures LexLess(b.key, t[i].key) {
        assert s[0] == b && s[i + 1] == t[i];
        assert LexLess(s[0].key, s[i + 1].key);
      }
      forall i, j | 0 <= i < j < |t| ensures LexLess(t[i].key, t[j].key) {
        assert s[i + 1] == t[i] && s[j + 1] == t[j];
      }
    }
  }

  /** Appending a key above `k` keeps every key above `k`. */
  lemma {:induction false} AppendAbove(bs: seq<Bucket>, key: string, text: string, k: string)
    requires AllAbove(bs, k) && LexLess(k, key)
    ensures AllAbove(Append(bs, key, text), k)
  {
    if |bs| > 0 && bs[0].key != key && !LexLess(key, bs[0].key) {
      AppendAbove(bs[1..], key, text, k);
      var r := Append(bs, key, text);
      assert r == [bs[0]] + Append(bs[1..], key, text);
      forall i | 0 <= i < |r| ensures LexLess(k, r[i].key) {
        if i > 0 {
          assert r[i] == Append(bs[1..], key, text)[i - 1];
        } else {
          assert r[0] == bs[0];
        }
      }
    } else if |bs| > 0 {
      var r := Append(bs, key, text);
      forall i | 0 <= i < |r| ensures LexLess(k, r[i].key) {
        if i > 0 && bs[0].key == key {
          assert r[i] == bs[i];
        } else if i > 0 {
          assert r[i] == bs[i - 1];
        }
      }
    }
  }

  /** `Append` keeps the entries sorted. */
  lemma {:induction false} AppendSorted(bs: seq<Bucket>, key: string, text: string)
    requires Sorted(bs)
    ensures Sorted(Append(bs, key, text))
  {
    if |bs| > 0 {
      var b, t := bs[0], bs[1..];
      assert bs == [b] + t;
      SortedCons(b, t);
      if b.key == key {
        SortedCons(Bucket(key, b.text + text), t);
      } else if LexLess(key, b.key) {
        forall i | 0 <= i < |bs| ensures LexLess(key, bs[i].key) {
          if i > 0 {
            LexLessTransitive(key, b.key, bs[i].key);
          }
        }
        SortedCons(Bucket(key, text), bs);
      } else {
        LexLessTotal(key, b.key);
        AppendSorted(t, key, text);
        AppendAbove(t, key, text, b.key);
        SortedCons(b, Append(t, key, text));
      }
    }
  }

  /** `Append` on the map: the text for `key` grows by `text` (starting
      from the empty string) and nothing else changes. */
  lemma {:induction false} AppendView(bs: seq<Bucket>, key: string, text: string)
    requires Sorted(bs)
    ensures View(Append(bs, key, text))
            == View(bs)[key := (if key in View(bs) then View(bs)[key] else "") + text]
  {
    if |bs| == 0 {
      assert "" + text == text;
    } else if bs[0].key == key {
      assert Append(bs, key, text)[1..] == bs[1..];
    } else if LexLess(key, bs[0].key) {
      var r := Append(bs, key, text);
      assert r[1..] == bs;
      KeyBelowFirstIsNew(bs, key);
      assert "" + text == text;
    } else {
      var r := Append(bs, key, text);
      assert r[1..] == Append(bs[1..], key, text);
      AppendView(bs[1..], key, text);
    }
  }

  /** A key below the first key of sorted entries is not in their map. */
  lemma KeyBelowFirstIsNew(bs: seq<Bucket>, key: string)
    requires Sorted(bs) && |bs| > 0 && LexLess(key, bs[0].key)
    ensures key !in View(bs)
  {
    ViewKeys(bs, key);
    if key in View(bs) {
      var i :| 0 <= i < |bs| && bs[i].key == key;
      if i > 0 {
        LexLessTransitive(key, bs[0].key, bs[i].key);
      }
      LexLessIrreflexive(key);
    }
  }

  /** `namespaces[key] += l` for each line `l` in turn. */
  function AppendAll(bs: seq<Bucket>, key: string, lines: seq<string>): seq<Bucket>
    decreases |lines|
  {
    if |lines| == 0 then bs else AppendAll(Append(bs, key, lines[0]), key, lines[1..])
  }

  /** Appending lines one by one appends their concatenation: sortedness is
      kept and only the entry for `key` changes. */
  lemma {:induction false} AppendAllView(bs: seq<Bucket>, key: string, lines: seq<string>)
    requires Sorted(bs) && |lines| > 0
    ensures Sorted(AppendAll(bs, key, lines))
    ensures View(AppendAll(bs, key, lines))
            == View(bs)[key := (if key in View(bs) then View(bs)[key] else "") + Concat(lines)]
    decreases |lines|
  {
    var before := if key in View(bs) then View(bs)[key] else "";
    var next := Append(bs, key, lines[0]);
    AppendSorted(bs, key, lines[0]);
    AppendView(bs, key, lines[0]);
    ConcatFirst(lines);
    if |lines| == 1 {
      assert AppendAll(next, key, lines[1..]) == next;
      EmptyRight(lines[0]);
    } else {
      AppendAllView(next, key, lines[1..]);
      UpdateAppended(View(bs), key, before, lines[0], Concat(lines[1..]));
    }
  }

  lemma ConcatFirst(lines: seq<string>)
    requires |lines| > 0
    ensures Concat(lines) == lines[0] + Concat(lines[1..])
    ensures |lines| == 1 ==> Concat(lines) == lines[0] + ""
  {
  }

  lemma EmptyRight(s: string)
    ensures s + "" == s
  {
  }

  /** Updating an entry with `before + x` and then with that plus `rest`
      is one update with `before + (x + rest)`. */
  lemma UpdateAppended(m: map<string, string>, k: string, before: string, x: string, rest: string)
    ensures var m1 := m[k := before + x];
            k in m1 && m1[k := m1[k] + rest] == m[k := before + (x + rest)]
  {
    UpdateTwice(m, k, before + x, (before + x) + rest);
    assert (before + x) + rest == before + (x + rest);
  }

  lemma UpdateTwice(m: map<string, string>, k: string, a: string, b: string)
    ensures m[k := a][k := b] == m[k := b]
  {
  }

  /** In sorted entries, a key of the map is the first key or above it. */
  lemma FirstKeyIsLeast(bs: seq<Bucket>, k: string)
    requires Sorted(bs) && |bs| > 0 && k in View(bs)
    ensures k == bs[0].key || LexLess(bs[0].key, k)
  {
    ViewKeys(bs, k);
    var i :| 0 <= i < |bs| && bs[i].key == k;
    if i > 0 {
      assert LexLess(bs[0].key, bs[i].key);
    }
  }

  /** The first key of sorted entries does not occur again after it. */
  lemma FirstKeyNotInTail(bs: seq<Bucket>)
    requires Sorted(bs) && |bs| > 0
    ensures bs[0].key !in View(bs[1..])
  {
    LexLessIrreflexive(bs[0].key);
    forall i | 0 <= i < |bs| - 1 ensures bs[1..][i].key != bs[0].key {
      assert LexLess(bs[0].key, bs[i + 1].key);
    }
    ViewKeys(bs[1..], bs[0].key);
  }

  lemma UpdateThenRemove(m: map<string, string>, k: string, v: string)
    requires k !in m
    ensures m[k := v] - {k} == m
  {
  }

  /** Dropping the first of sorted entries drops its key from the map. */
  lemma ViewTail(bs: seq<Bucket>)
    requires Sorted(bs) && |bs| > 0
    ensures Sorted(bs[1..])
    ensures View(bs[1..]) == View(bs) - {bs[0].key}
  {
    assert bs == [bs[0]] + bs[1..];
    SortedCons(bs[0], bs[1..]);
    FirstKeyNotInTail(bs);
    UpdateThenRemove(View(bs[1..]), bs[0].key, bs[0].text);
  }

  /** Sorted entries are determined by the map they stand for: like a
      `std::map`, the container's contents and order depend only on which
      keys hold which texts. */
  lemma {:induction false} SortedUnique(bs: seq<Bucket>, cs: seq<Bucket>)
    requires Sorted(bs) && Sorted(cs) && View(bs) == View(cs)
    ensures bs == cs
    decreases |bs|
  {
    if |bs| == 0 || |cs| == 0 {
      if |bs| > 0 {
        ViewAt(bs, 0);
      }
      if |cs| > 0 {
        ViewAt(cs, 0);
      }
    } else {
      var b, c := bs[0], cs[0];
      ViewAt(bs, 0);
      ViewAt(cs, 0);
      FirstKeyIsLeast(bs, c.key);
      FirstKeyIsLeast(cs, b.key);
      if b.key != c.key {
        LexLessAsymmetric(b.key, c.key);
      }
      ViewTail(bs);
      ViewTail(cs);
      SortedUnique(bs[1..], cs[1..]);
      assert bs == [b] + bs[1..] && cs == [c] + cs[1..];
    }
  }

  // ---------------------------------------------------------------------
  // make_namespaces

  /** One bucket as `make_namespaces` renders it. */
  function RenderBucket(b: Bucket): string {
    if b.key == UNNAMED then Sprintf("%x\n", [b.text])
    else Sprintf("namespace %x {\n%x}\n\n", [b.key, b.text])
  }

  /** `make_namespaces`: the buckets rendered one after the other, in the
      map's key order. */
  function RenderNamespaces(bs: seq<Bucket>): string {
    if |bs| == 0 then "" else RenderBucket(bs[0]) + RenderNamespaces(bs[1..])
  }

  /** The unnamed bucket is its text followed by a newline, whatever the
      text holds. */
  lemma RenderUnnamed(text: string)
    ensures RenderBucket(Bucket(UNNAMED, text)) == text + "\n"
  {
    assert "%x\n" == "" + ['%', 'x'] + "\n";
    SprintfSingle("", 'x', "\n", text);
  }

  /** A named bucket is wrapped in a namespace block; the key must be free
      of `%` since the renderer searches the inserted key again. */
  lemma RenderNamed(key: string, text: string)
    requires key != UNNAMED && NoPercent(key)
    ensures RenderBucket(Bucket(key, text)) == "namespace " + key + " {\n" + text + "}\n\n"
  {
    var inner := " {\n%x}\n\n";
    assert inner == " {\n" + ['%', 'x'] + "}\n\n";
    SprintfSingle(" {\n", 'x', "}\n\n", text);
    var b := "x" + inner;
    assert "namespace %x {\n%x}\n\n" == "namespace " + "%" + b;
    assert b[1..] == inner;
    assert [key, text] == [key] + [text];
    SprintfFirst("namespace ", b, key, [text]);
    WrapConcat("namespace ", key, " {\n", text, "}\n\n");
  }

  lemma WrapConcat(a: string, k: string, c: string, t: string, e: string)
    ensures a + k + (c + t + e) == a + k + c + t + e
  {
  }

  /** Rendering distributes over the entries. */
  lemma {:induction false} RenderNamespacesAppend(a: seq<Bucket>, b: seq<Bucket>)
    ensures RenderNamespaces(a + b) == RenderNamespaces(a) + RenderNamespaces(b)
    decreases |a|
  {
    if |a| == 0 {
      assert a + b == b;
    } else {
      assert (a + b)[1..] == a[1..] + b;
      RenderNamespacesAppend(a[1..], b);
    }
  }

  /** The rendered text depends only on the map: two sorted containers with
      the same contents render the same. */
  lemma RenderDependsOnMap(bs: seq<Bucket>, cs: seq<Bucket>)
    requires Sorted(bs) && Sorted(cs) && View(bs) == View(cs)
    ensures RenderNamespaces(bs) == RenderNamespaces(cs)
  {
    SortedUnique(bs, cs);
  }
}
