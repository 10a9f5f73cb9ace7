/**
 * Ordering of job applications, as the database's `sort({serialNo: 1})` and JavaScript's
 * stable `Array.prototype.sort` deliver them.  One stable insertion sort by an integer key
 * serves both: ascending serial number, and newest application date first (key = minus the
 * date).
 */
module JobOrdering {
  import opened JobApplicationModel

  predicate Ascending(s: seq<JobApplication>, key: JobApplication -> int) {
    forall i, j :: 0 <= i < j < |s| ==> key(s[i]) <= key(s[j])
  }

  /** No two records of the sequence share a database identity. */
  predicate IdsDistinct(s: seq<JobApplication>) {
    forall i, j :: 0 <= i < j < |s| ==> s[i].id != s[j].id
  }

  /** Puts x in front of the first element whose key is not smaller than x's. */
  function Insert(x: JobApplication, s: seq<JobApplication>, key: JobApplication -> int): (r: seq<JobApplication>)
    ensures |r| == |s| + 1
    ensures multiset(r) == multiset(s) + multiset{x}
  {
    if s == [] || key(x) <= key(s[0]) then [x] + s
    else
      assert s == [s[0]] + s[1..];
      [s[0]] + Insert(x, s[1..], key)
  }

  /** A stable insertion sort by key. */
  function SortBy(s: seq<JobApplication>, key: JobApplication -> int): (r: seq<JobApplication>)
    ensures |r| == |s|
    ensures multiset(r) == multiset(s)
  {
    if s == [] then []
    else
      assert s == [s[0]] + s[1..];
      Insert(s[0], SortBy(s[1..], key), key)
  }

  /** Inserting keeps a lower bound that x and every element of s respect. */
  lemma InsertAbove(x: JobApplication, s: seq<JobApplication>, key: JobApplication -> int, lo: int)
    requires lo <= key(x)
    requires forall i | 0 <= i < |s| :: lo <= key(s[i])
    ensures forall i | 0 <= i < |Insert(x, s, key)| :: lo <= key(Insert(x, s, key)[i])
  {
    var r := Insert(x, s, key);
    forall i | 0 <= i < |r| ensures lo <= key(r[i]) {
      assert r[i] in multiset(r);
      if r[i] != x {
        assert r[i] in multiset(s);
        var k :| 0 <= k < |s| && s[k] == r[i];
      }
    }
  }

  lemma {:induction false} InsertAscending(x: JobApplication, s: seq<JobApplication>, key: JobApplication -> int)
    requires Ascending(s, key)
    ensures Ascending(Insert(x, s, key), key)
  {
    if s != [] && key(x) > key(s[0]) {
      var tail := s[1..];
      var rest := Insert(x, tail, key);
      assert Ascending(tail, key) by {
        forall i, j | 0 <= i < j < |tail| ensures key(tail[i]) <= key(tail[j]) {
          assert tail[i] == s[i + 1] && tail[j] == s[j + 1];
        }
      }
      InsertAscending(x, tail, key);
      assert forall i | 0 <= i < |tail| :: key(s[0]) <= key(tail[i]) by {
        forall i | 0 <= i < |tail| ensures key(s[0]) <= key(tail[i]) {
          assert tail[i] == s[i + 1];
        }
      }
      InsertAbove(x, tail, key, key(s[0]));
      var r := [s[0]] + rest;
      assert Insert(x, s, key) == r;
      forall i, j | 0 <= i < j < |r| ensures key(r[i]) <= key(r[j]) {
        assert r[j] == rest[j - 1];
        if i > 0 {
          assert r[i] == rest[i - 1];
        }
      }
    }
  }

  lemma {:induction false} InsertIdsDistinct(x: JobApplication, s: seq<JobApplication>, key: JobApplication -> int)
    requires IdsDistinct(s)
    requires forall y | y in s :: y.id != x.id
    ensures IdsDistinct(Insert(x, s, key))
  {
    if s == [] || key(x) <= key(s[0]) {
      var r := [x] + s;
      forall i, j | 0 <= i < j < |r| ensures r[i].id != r[j].id {
        if i == 0 {
          assert r[j] == s[j - 1];
        } else {
          assert r[i] == s[i - 1] && r[j] == s[j - 1];
        }
      }
    } else {
      var rest := Insert(x, s[1..], key);
      InsertIdsDistinct(x, s[1..], key);
      forall y | y in rest ensures y.id != s[0].id {
        assert y in multiset(rest);
        if y != x {
          assert y in s[1..];
          var k :| 0 <= k < |s[1..]| && s[1..][k] == y;
          assert s[k + 1] == y;
        }
      }
      var r := [s[0]] + rest;
      forall i, j | 0 <= i < j < |r| ensures r[i].id != r[j].id {
        if i == 0 {
          assert r[j] == rest[j - 1];
          assert r[j] in rest;
        } else {
          assert r[i] == rest[i - 1] && r[j] == rest[j - 1];
        }
      }
    }
  }

  /** The sort yields an ascending permutation of its input. */
  lemma {:induction false} SortByAscending(s: seq<JobApplication>, key: JobApplication -> int)
    ensures Ascending(SortBy(s, key), key)
  {
    if s != [] {
      SortByAscending(s[1..], key);
      InsertAscending(s[0], SortBy(s[1..], key), key);
    }
  }

  /** Sorting records with distinct identities keeps them distinct. */
  lemma {:induction false} SortByIdsDistinct(s: seq<JobApplication>, key: JobApplication -> int)
    requires IdsDistinct(s)
    ensures IdsDistinct(SortBy(s, key))
  {
    if s != [] {
      var rest := SortBy(s[1..], key);
      assert IdsDistinct(s[1..]) by {
        forall i, j | 0 <= i < j < |s[1..]| ensures s[1..][i].id != s[1..][j].id {
          assert s[1..][i] == s[i + 1] && s[1..][j] == s[j + 1];
        }
      }
      SortByIdsDistinct(s[1..], key);
      forall y | y in rest ensures y.id != s[0].id {
        assert y in multiset(rest);
        assert y in s[1..];
        var k :| 0 <= k < |s[1..]| && s[1..][k] == y;
        assert s[k + 1] == y;
      }
      InsertIdsDistinct(s[0], rest, key);
    }
  }
}
