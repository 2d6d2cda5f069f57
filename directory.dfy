/** The two combinators that `list` and `search` build their answers with:
    appending the documents of one partition whose ids are not yet present,
    and the stable sort by `lastModified`, newest first. */
module Directory {
  import opened Schema

  predicate HasId(s: seq<Doc>, id: DocId) {
    exists d :: d in s && d.id == id
  }

  predicate NoDuplicateIds(s: seq<Doc>) {
    forall i, j :: 0 <= i < j < |s| ==> s[i].id != s[j].id
  }

  /** What the `for ... of` loop with `find` computes: every document of `rest`
      whose id is not already in the accumulated sequence is appended to it,
      in order; the accumulator is searched as it grows. */
  function AppendAbsent(acc: seq<Doc>, rest: seq<Doc>): (r: seq<Doc>)
    ensures |acc| <= |r| <= |acc| + |rest|
    ensures r[..|acc|] == acc
    decreases |rest|
  {
    if rest == [] then acc
    else
      var acc' := if HasId(acc, rest[0].id) then acc else acc + [rest[0]];
      var r := AppendAbsent(acc', rest[1..]);
      assert r[..|acc|] == acc'[..|acc|];
      r
  }

  /** Everything past the accumulator comes from `rest` and carries an id the
      accumulator did not have. */
  lemma {:induction false} AppendAbsentOnlyNew(acc: seq<Doc>, rest: seq<Doc>)
    ensures forall k :: |acc| <= k < |AppendAbsent(acc, rest)| ==>
      AppendAbsent(acc, rest)[k] in rest && !HasId(acc, AppendAbsent(acc, rest)[k].id)
    decreases |rest|
  {
    if rest != [] {
      var acc' := if HasId(acc, rest[0].id) then acc else acc + [rest[0]];
      var r := AppendAbsent(acc, rest);
      assert r == AppendAbsent(acc', rest[1..]);
      AppendAbsentOnlyNew(acc', rest[1..]);
      forall k | |acc| <= k < |r|
        ensures r[k] in rest && !HasId(acc, r[k].id)
      {
        if k < |acc'| {
          assert acc' == acc + [rest[0]];
          assert r[k] == r[..|acc'|][k] == rest[0];
        } else {
          assert r[k] in rest[1..];
          assert !HasId(acc', r[k].id);
        }
      }
    }
  }

  /** Every id of `rest` ends up in the result. */
  lemma {:induction false} AppendAbsentCovers(acc: seq<Doc>, rest: seq<Doc>)
    ensures forall d :: d in rest ==> HasId(AppendAbsent(acc, rest), d.id)
    decreases |rest|
  {
    if rest != [] {
      var acc' := if HasId(acc, rest[0].id) then acc else acc + [rest[0]];
      var r := AppendAbsent(acc, rest);
      assert r == AppendAbsent(acc', rest[1..]);
      AppendAbsentCovers(acc', rest[1..]);
      var e :| e in acc' && e.id == rest[0].id;
      assert e in r by {
        var k :| 0 <= k < |acc'| && acc'[k] == e;
        assert r[..|acc'|][k] == e;
      }
      forall d | d in rest ensures HasId(r, d.id) {
        if d != rest[0] {
          assert d in rest[1..];
        }
      }
    }
  }

  /** The merge never introduces a duplicate id. */
  lemma {:induction false} AppendAbsentNoDuplicates(acc: seq<Doc>, rest: seq<Doc>)
    requires NoDuplicateIds(acc)
    ensures NoDuplicateIds(AppendAbsent(acc, rest))
    decreases |rest|
  {
    if rest != [] {
      var acc' := if HasId(acc, rest[0].id) then acc else acc + [rest[0]];
      assert AppendAbsent(acc, rest) == AppendAbsent(acc', rest[1..]);
      if !HasId(acc, rest[0].id) {
        forall i, j | 0 <= i < j < |acc'| ensures acc'[i].id != acc'[j].id {
          if j == |acc| {
            assert acc'[i] == acc[i];
            assert acc[i] in acc;
          }
        }
      }
      AppendAbsentNoDuplicates(acc', rest[1..]);
    }
  }

  /** The loop of `list` and `search`, over arrays-as-sequences: start from the
      first partition and push each document of the second whose id `find`
      does not see. */
  method MergeAbsent(first: seq<Doc>, second: seq<Doc>) returns (all: seq<Doc>)
    ensures all == AppendAbsent(first, second)
  {
    all := first;
    for i := 0 to |second|
      invariant AppendAbsent(all, second[i..]) == AppendAbsent(first, second)
    {
      var doc := second[i];
      assert second[i..][1..] == second[i + 1..];
      if !HasId(all, doc.id) {
        all := all + [doc];
      }
    }
    assert second[|second|..] == [];
  }

  // ---------------------------------------------------------------------------
  // Sorting by `lastModified`, newest first.
  // ---------------------------------------------------------------------------

  predicate NewestFirst(s: seq<Doc>) {
    forall i, j :: 0 <= i < j < |s| ==> s[i].lastModified >= s[j].lastModified
  }

  /** The documents of `s` with timestamp `ts`, in the order of `s`. */
  /** `[d]` when `d` carries timestamp `ts`, else nothing. */
  function Pick(d: Doc, ts: Timestamp): seq<Doc> {
    if d.lastModified == ts then [d] else []
  }

  function WithTimestamp(s: seq<Doc>, ts: Timestamp): seq<Doc> {
    if s == [] then []
    else Pick(s[0], ts) + WithTimestamp(s[1..], ts)
  }

  /** Places `x` in front of the first element that is not newer than it. */
  function InsertByRecency(x: Doc, s: seq<Doc>): (r: seq<Doc>)
    ensures multiset(r) == multiset(s) + multiset{x}
  {
    if s == [] || s[0].lastModified <= x.lastModified then [x] + s
    else
      assert s == [s[0]] + s[1..];
      [s[0]] + InsertByRecency(x, s[1..])
  }

  /** A stable sort by the comparator `(a, b) => b.lastModified - a.lastModified`,
      as `Array.prototype.sort` performs it: newest first, and documents with the
      same timestamp in their original order. */
  function SortByRecency(s: seq<Doc>): (r: seq<Doc>)
    ensures multiset(r) == multiset(s)
  {
    if s == [] then []
    else
      assert s == [s[0]] + s[1..];
      InsertByRecency(s[0], SortByRecency(s[1..]))
  }

  /** A newest-first sequence stays newest first without its head. */
  lemma NewestFirstTail(s: seq<Doc>)
    requires s != [] && NewestFirst(s)
    ensures NewestFirst(s[1..])
  {
    forall i, j | 0 <= i < j < |s[1..]| ensures s[1..][i].lastModified >= s[1..][j].lastModified {
      assert s[1..][i] == s[i + 1] && s[1..][j] == s[j + 1];
    }
  }

  /** Inserting keeps every timestamp at or below a common bound. */
  lemma {:induction false} InsertAtMost(x: Doc, s: seq<Doc>, t: Timestamp)
    requires x.lastModified <= t && forall i :: 0 <= i < |s| ==> s[i].lastModified <= t
    ensures forall i :: 0 <= i < |InsertByRecency(x, s)| ==> InsertByRecency(x, s)[i].lastModified <= t
  {
    if s != [] && s[0].lastModified > x.lastModified {
      assert forall i :: 0 <= i < |s[1..]| ==> s[1..][i] == s[i + 1];
      InsertAtMost(x, s[1..], t);
      assert InsertByRecency(x, s) == [s[0]] + InsertByRecency(x, s[1..]);
    }
  }

  lemma {:induction false} InsertNewestFirst(x: Doc, s: seq<Doc>)
    requires NewestFirst(s)
    ensures NewestFirst(InsertByRecency(x, s))
  {
    if s == [] || s[0].lastModified <= x.lastModified {
      var r := [x] + s;
      forall i, j | 0 <= i < j < |r| ensures r[i].lastModified >= r[j].lastModified {
        if i == 0 {
          assert r[j] == s[j - 1];
        }
      }
    } else {
      var tail := InsertByRecency(x, s[1..]);
      NewestFirstTail(s);
      InsertNewestFirst(x, s[1..]);
      assert forall i :: 0 <= i < |s[1..]| ==> s[1..][i] == s[i + 1];
      InsertAtMost(x, s[1..], s[0].lastModified);
      var r := [s[0]] + tail;
      forall i, j | 0 <= i < j < |r| ensures r[i].lastModified >= r[j].lastModified {
        assert r[j] == tail[j - 1];
        if i > 0 {
          assert r[i] == tail[i - 1];
        }
      }
    }
  }

  /** The result of the sort is ordered newest first. */
  lemma {:induction false} SortNewestFirst(s: seq<Doc>)
    ensures NewestFirst(SortByRecency(s))
  {
    if s != [] {
      SortNewestFirst(s[1..]);
      InsertNewestFirst(s[0], SortByRecency(s[1..]));
    }
  }

  /** The documents of one timestamp in a sequence with `d` in front. */
  lemma WithTimestampCons(d: Doc, s: seq<Doc>, ts: Timestamp)
    ensures WithTimestamp([d] + s, ts) == Pick(d, ts) + WithTimestamp(s, ts)
  {
    assert ([d] + s)[1..] == s;
  }

  /** Two documents with different timestamps can trade places in a selection. */
  lemma PickSwap(a: Doc, b: Doc, w: seq<Doc>, ts: Timestamp)
    requires a.lastModified != b.lastModified
    ensures Pick(a, ts) + (Pick(b, ts) + w) == Pick(b, ts) + (Pick(a, ts) + w)
  {
  }

  /** Per timestamp, inserting `x` puts it where prepending it would. */
  lemma {:induction false} InsertWithTimestamp(x: Doc, s: seq<Doc>, ts: Timestamp)
    ensures WithTimestamp(InsertByRecency(x, s), ts) == WithTimestamp([x] + s, ts)
  {
    if s != [] && s[0].lastModified > x.lastModified {
      var s1 := s[1..];
      var tail := InsertByRecency(x, s1);
      calc {
        WithTimestamp(InsertByRecency(x, s), ts);
        WithTimestamp([s[0]] + tail, ts);
        { WithTimestampCons(s[0], tail, ts); }
        Pick(s[0], ts) + WithTimestamp(tail, ts);
        { InsertWithTimestamp(x, s1, ts); }
        Pick(s[0], ts) + WithTimestamp([x] + s1, ts);
        { WithTimestampCons(x, s1, ts); }
        Pick(s[0], ts) + (Pick(x, ts) + WithTimestamp(s1, ts));
        { PickSwap(s[0], x, WithTimestamp(s1, ts), ts); }
        Pick(x, ts) + (Pick(s[0], ts) + WithTimestamp(s1, ts));
        { assert s == [s[0]] + s1; WithTimestampCons(s[0], s1, ts); }
        Pick(x, ts) + WithTimestamp(s, ts);
        { WithTimestampCons(x, s, ts); }
        WithTimestamp([x] + s, ts);
      }
    }
  }

  /** Stability: among the documents with one timestamp the sort keeps the
      input order, so the sort changes only the order across timestamps. */
  lemma {:induction false} SortWithTimestamp(s: seq<Doc>, ts: Timestamp)
    ensures WithTimestamp(SortByRecency(s), ts) == WithTimestamp(s, ts)
  {
    if s != [] {
      SortWithTimestamp(s[1..], ts);
      InsertWithTimestamp(s[0], SortByRecency(s[1..]), ts);
      assert ([s[0]] + SortByRecency(s[1..]))[1..] == SortByRecency(s[1..]);
    }
  }

  lemma {:induction false} WithTimestampAppend(a: seq<Doc>, b: seq<Doc>, ts: Timestamp)
    ensures WithTimestamp(a + b, ts) == WithTimestamp(a, ts) + WithTimestamp(b, ts)
  {
    if a != [] {
      assert (a + b)[1..] == a[1..] + b;
      WithTimestampAppend(a[1..], b, ts);
    } else {
      assert a + b == b;
    }
  }

  lemma {:induction false} InsertNoDuplicates(x: Doc, s: seq<Doc>)
    requires NoDuplicateIds(s) && !HasId(s, x.id)
    ensures NoDuplicateIds(InsertByRecency(x, s))
  {
    if s == [] || s[0].lastModified <= x.lastModified {
      var r := [x] + s;
      forall i, j | 0 <= i < j < |r| ensures r[i].id != r[j].id {
        if i == 0 {
          assert r[j] == s[j - 1] && s[j - 1] in s;
        } else {
          assert r[i] == s[i - 1] && r[j] == s[j - 1];
        }
      }
    } else {
      assert s[0] in s;
      assert !HasId(s[1..], x.id);
      assert NoDuplicateIds(s[1..]) by {
        forall i, j | 0 <= i < j < |s[1..]| ensures s[1..][i].id != s[1..][j].id {
          assert s[1..][i] == s[i + 1] && s[1..][j] == s[j + 1];
        }
      }
      var tail := InsertByRecency(x, s[1..]);
      InsertNoDuplicates(x, s[1..]);
      var r := [s[0]] + tail;
      forall i, j | 0 <= i < j < |r| ensures r[i].id != r[j].id {
        if i == 0 {
          assert r[j] in multiset(tail);
          if r[j] != x {
            assert r[j] in s[1..];
            var k :| 0 <= k < |s[1..]| && s[1..][k] == r[j];
            assert s[k + 1] == r[j];
          }
        } else {
          assert r[i] == tail[i - 1] && r[j] == tail[j - 1];
        }
      }
    }
  }

  /** Sorting keeps ids unique. */
  lemma {:induction false} SortNoDuplicates(s: seq<Doc>)
    requires NoDuplicateIds(s)
    ensures NoDuplicateIds(SortByRecency(s))
  {
    if s != [] {
      assert NoDuplicateIds(s[1..]) by {
        forall i, j | 0 <= i < j < |s[1..]| ensures s[1..][i].id != s[1..][j].id {
          assert s[1..][i] == s[i + 1] && s[1..][j] == s[j + 1];
        }
      }
      SortNoDuplicates(s[1..]);
      var sorted := SortByRecency(s[1..]);
      forall d | d in sorted ensures d.id != s[0].id {
        assert d in multiset(sorted);
        var k :| 0 <= k < |s[1..]| && s[1..][k] == d;
        assert s[k + 1] == d;
      }
      InsertNoDuplicates(s[0], sorted);
    }
  }

  lemma {:induction false} WithTimestampMembers(s: seq<Doc>, ts: Timestamp)
    ensures forall x :: x in WithTimestamp(s, ts) <==> x in s && x.lastModified == ts
  {
    if s != [] {
      WithTimestampMembers(s[1..], ts);
      assert s == [s[0]] + s[1..];
    }
  }

  /** One document is selected for a timestamp exactly when it is in the
      sequence and carries that timestamp. */
  lemma {:induction false} WithTimestampHas(s: seq<Doc>, ts: Timestamp, x: Doc)
    ensures x in WithTimestamp(s, ts) <==> x in s && x.lastModified == ts
  {
    if s != [] {
      WithTimestampHas(s[1..], ts, x);
      WithTimestampCons(s[0], s[1..], ts);
      assert s == [s[0]] + s[1..];
    }
  }

  /** The head of a newest-first sequence is at least as new as any member. */
  lemma HeadIsNewest(s: seq<Doc>, x: Doc)
    requires NewestFirst(s) && x in s
    ensures s[0].lastModified >= x.lastModified
  {
    var k :| 0 <= k < |s| && s[k] == x;
    if k > 0 {
      assert s[0].lastModified >= s[k].lastModified;
    }
  }

  /** Two newest-first sequences that select the same documents for the
      timestamps of both heads have heads with one timestamp. */
  lemma SameHeadTimestamp(a: seq<Doc>, b: seq<Doc>)
    requires a != [] && b != [] && NewestFirst(a) && NewestFirst(b)
    requires WithTimestamp(a, a[0].lastModified) == WithTimestamp(b, a[0].lastModified)
    requires WithTimestamp(a, b[0].lastModified) == WithTimestamp(b, b[0].lastModified)
    ensures a[0].lastModified == b[0].lastModified
  {
    var m, n := a[0].lastModified, b[0].lastModified;
    assert a[0] in a && b[0] in b;
    WithTimestampHas(a, m, a[0]);
    WithTimestampHas(b, m, a[0]);
    HeadIsNewest(b, a[0]);
    WithTimestampHas(b, n, b[0]);
    WithTimestampHas(a, n, b[0]);
    HeadIsNewest(a, b[0]);
  }

  /** Two sequences whose heads carry `m` and that select the same documents
      for `m` have the same head. */
  lemma SameHeadOfSelection(a: seq<Doc>, b: seq<Doc>, m: Timestamp)
    requires a != [] && b != [] && a[0].lastModified == m && b[0].lastModified == m
    requires WithTimestamp(a, m) == WithTimestamp(b, m)
    ensures a[0] == b[0]
  {
    WithTimestampCons(a[0], a[1..], m);
    WithTimestampCons(b[0], b[1..], m);
    assert a == [a[0]] + a[1..] && b == [b[0]] + b[1..];
    var x, y := WithTimestamp(a[1..], m), WithTimestamp(b[1..], m);
    assert WithTimestamp(a, m) == [a[0]] + x && WithTimestamp(b, m) == [b[0]] + y;
    assert ([a[0]] + x)[0] == a[0] && ([b[0]] + y)[0] == b[0];
  }

  /** Dropping a common head keeps the documents of each timestamp equal. */
  lemma DropSameHead(a: seq<Doc>, b: seq<Doc>, ts: Timestamp)
    requires a != [] && b != [] && a[0] == b[0]
    requires WithTimestamp(a, ts) == WithTimestamp(b, ts)
    ensures WithTimestamp(a[1..], ts) == WithTimestamp(b[1..], ts)
  {
    var p := Pick(a[0], ts);
    var x, y := WithTimestamp(a[1..], ts), WithTimestamp(b[1..], ts);
    assert WithTimestamp(a, ts) == p + x && WithTimestamp(b, ts) == p + y;
    assert x == (p + x)[|p|..] && y == (p + y)[|p|..];
  }

  /** The sort is determined by its two properties: a newest-first sequence that
      lists the documents of every timestamp in the same order as `SortByRecency`
      does is that sequence. So `SortByRecency` is the result of any stable sort
      by this comparator, whatever its algorithm. */
  lemma {:induction false} StableSortUnique(a: seq<Doc>, b: seq<Doc>)
    requires NewestFirst(a) && NewestFirst(b)
    requires forall ts :: WithTimestamp(a, ts) == WithTimestamp(b, ts)
    ensures a == b
    decreases |a|
  {
    if a == [] || b == [] {
      var c := if a == [] then b else a;
      assert c != [] ==> WithTimestamp(c, c[0].lastModified) != [];
    } else {
      assert WithTimestamp(a, a[0].lastModified) == WithTimestamp(b, a[0].lastModified);
      assert WithTimestamp(a, b[0].lastModified) == WithTimestamp(b, b[0].lastModified);
      SameHeadTimestamp(a, b);
      SameHeadOfSelection(a, b, a[0].lastModified);
      forall ts ensures WithTimestamp(a[1..], ts) == WithTimestamp(b[1..], ts) {
        DropSameHead(a, b, ts);
      }
      NewestFirstTail(a);
      NewestFirstTail(b);
      StableSortUnique(a[1..], b[1..]);
      assert a == [a[0]] + a[1..] && b == [b[0]] + b[1..];
    }
  }

  /** Any newest-first rearrangement that keeps the input order within each
      timestamp is `SortByRecency` of the input. */
  lemma StableSortIsSortByRecency(s: seq<Doc>, r: seq<Doc>)
    requires NewestFirst(r)
    requires forall ts :: WithTimestamp(r, ts) == WithTimestamp(s, ts)
    ensures r == SortByRecency(s)
  {
    SortNewestFirst(s);
    forall ts ensures WithTimestamp(r, ts) == WithTimestamp(SortByRecency(s), ts) {
      SortWithTimestamp(s, ts);
    }
    StableSortUnique(r, SortByRecency(s));
  }
}
