/**
 * The job-application collection as the add, edit and delete handlers of
 * routes/JobApplications.js change it.  The collection is a sequence of records in storage
 * order; each handler is one atomic step (the interleaving of concurrent requests at
 * `await` points is not modelled).
 */
module JobStore {
  import opened Wrappers
  import opened JobApplicationModel
  import opened JobOrdering

  /** `find({ user: u })`: the user's records, in storage order. */
  function Owned(docs: seq<JobApplication>, u: UserId): (r: seq<JobApplication>)
    ensures |r| <= |docs|
    ensures forall x :: x in r <==> x in docs && x.user == u
  {
    if docs == [] then []
    else
      var n := |docs| - 1;
      assert docs == docs[..n] + [docs[n]];
      Owned(docs[..n], u) + (if docs[n].user == u then [docs[n]] else [])
  }

  /** `find({ user: u })` returns each of u's records as often as it is stored, and nothing else. */
  lemma {:induction false} OwnedMultiplicity(docs: seq<JobApplication>, u: UserId)
    ensures forall x :: multiset(Owned(docs, u))[x] == if x.user == u then multiset(docs)[x] else 0
  {
    if docs != [] {
      var n := |docs| - 1;
      OwnedMultiplicity(docs[..n], u);
      assert docs == docs[..n] + [docs[n]];
      assert multiset(docs) == multiset(docs[..n]) + multiset{docs[n]};
    }
  }

  /** The largest serial number among the user's records (`sort({ serialNo: -1 })` + `findOne`). */
  function MaxSerial(docs: seq<JobApplication>, u: UserId): (m: Option<int>)
    ensures m.Some? ==> exists i | 0 <= i < |docs| :: docs[i].user == u && docs[i].serialNo == m.value
    ensures forall i | 0 <= i < |docs| && docs[i].user == u :: m.Some? && docs[i].serialNo <= m.value
  {
    if docs == [] then None
    else
      var n := |docs| - 1;
      var prev := MaxSerial(docs[..n], u);
      assert forall i | 0 <= i < n :: docs[..n][i] == docs[i];
      if docs[n].user != u then prev
      else if prev.Some? && prev.value >= docs[n].serialNo then prev
      else Some(docs[n].serialNo)
  }

  /**
   * The serial number a new record of user u receives: one more than the user's largest,
   * or 1 when the user has none.  So it exceeds every serial the user already has.
   */
  function NextSerial(docs: seq<JobApplication>, u: UserId): (s: int)
    ensures forall i | 0 <= i < |docs| && docs[i].user == u :: docs[i].serialNo < s
    ensures s == 1 || exists i | 0 <= i < |docs| :: docs[i].user == u && docs[i].serialNo == s - 1
    ensures (forall i | 0 <= i < |docs| :: docs[i].user != u) ==> s == 1
  {
    match MaxSerial(docs, u)
    case None => 1
    case Some(m) => m + 1
  }

  /** `findById`: the position of the record with the given identity. */
  function IndexOfId(docs: seq<JobApplication>, id: DocId): (k: Option<nat>)
    ensures k.Some? ==> k.value < |docs| && docs[k.value].id == id
    ensures k.Some? ==> forall j | 0 <= j < k.value :: docs[j].id != id
    ensures k.None? ==> forall j | 0 <= j < |docs| :: docs[j].id != id
  {
    if docs == [] then None
    else if docs[0].id == id then Some(0)
    else
      match IndexOfId(docs[1..], id)
      case None => None
      case Some(j) => Some(j + 1)
  }

  function RemoveAt(docs: seq<JobApplication>, k: nat): (r: seq<JobApplication>)
    requires k < |docs|
    ensures |r| == |docs| - 1
    ensures forall j | 0 <= j < |r| :: r[j] == if j < k then docs[j] else docs[j + 1]
  {
    docs[..k] + docs[k + 1..]
  }

  /** One `serialNo = ...; save()` step: the record with identity id gets the serial number. */
  function SetSerial(docs: seq<JobApplication>, id: DocId, serial: int): (r: seq<JobApplication>)
    ensures |r| == |docs|
    ensures forall j | 0 <= j < |r| :: r[j] == if docs[j].id == id then docs[j].(serialNo := serial) else docs[j]
  {
    seq(|docs|, j requires 0 <= j < |docs| => if docs[j].id == id then docs[j].(serialNo := serial) else docs[j])
  }

  function SerialKey(d: JobApplication): int {
    d.serialNo
  }

  /** `find({ user: u }).sort({ serialNo: 1 })`. */
  function SerialOrder(docs: seq<JobApplication>, u: UserId): seq<JobApplication> {
    SortBy(Owned(docs, u), SerialKey)
  }

  /** The record after the renumbering loop: its position in `order`, plus one, if it is there. */
  function Reserial(d: JobApplication, order: seq<JobApplication>): JobApplication {
    match IndexOfId(order, d.id)
    case Some(k) => d.(serialNo := k + 1)
    case None => d
  }

  function RenumberedBy(docs: seq<JobApplication>, order: seq<JobApplication>): (r: seq<JobApplication>)
    ensures |r| == |docs|
    ensures forall j | 0 <= j < |r| :: r[j] == Reserial(docs[j], order)
  {
    seq(|docs|, j requires 0 <= j < |docs| => Reserial(docs[j], order))
  }

  /** The collection after the loop `jobApplications[i].serialNo = i + 1` over u's sorted records. */
  function Renumbered(docs: seq<JobApplication>, u: UserId): seq<JobApplication> {
    RenumberedBy(docs, SerialOrder(docs, u))
  }

  /** No user has two records with the same serial number. */
  predicate PerUserSerialsDistinct(docs: seq<JobApplication>) {
    forall i, j | 0 <= i < j < |docs| && docs[i].user == docs[j].user :: docs[i].serialNo != docs[j].serialNo
  }

  predicate SerialsDistinct(docs: seq<JobApplication>, u: UserId) {
    forall i, j | 0 <= i < j < |docs| && docs[i].user == u && docs[j].user == u :: docs[i].serialNo != docs[j].serialNo
  }

  /** Some record of u carries serial number s. */
  predicate HasSerial(docs: seq<JobApplication>, u: UserId, s: int) {
    exists i | 0 <= i < |docs| :: docs[i].user == u && docs[i].serialNo == s
  }

  /** The density invariant: u's serial numbers are exactly 1..N, N the number of u's records. */
  predicate Dense(docs: seq<JobApplication>, u: UserId) {
    && (forall i | 0 <= i < |docs| && docs[i].user == u :: 1 <= docs[i].serialNo <= |Owned(docs, u)|)
    && (forall s | 1 <= s <= |Owned(docs, u)| :: HasSerial(docs, u, s))
  }

  /**
   * What every handler keeps true of the collection: identities are distinct and below the
   * next one to be issued, every record passed the schema, serial numbers are positive and
   * no user has two records with the same one.
   */
  ghost predicate Consistent(docs: seq<JobApplication>, nextId: DocId) {
    && IdsDistinct(docs)
    && PerUserSerialsDistinct(docs)
    && forall i | 0 <= i < |docs| :: docs[i].id < nextId && WellFormed(docs[i]) && docs[i].serialNo >= 1
  }

  datatype EditOutcome = EditNotFound | EditInvalid(violations: map<string, Violation>) | EditSaved {
    function Message(): string {
      match this
      case EditNotFound => "Job application not found"
      case EditInvalid(_) => "Something went wrong"
      case EditSaved => "Job application updated successfully"
    }
  }

  datatype DeleteOutcome = DeleteNotFound | DeleteDone {
    function Message(): string {
      match this
      case DeleteNotFound => "Job application not found"
      case DeleteDone => "Job application deleted successfully"
    }
  }

  class Store {
    var docs: seq<JobApplication>
    /** Stands in for ObjectId generation: every stored identity is below it. */
    var nextId: DocId

    ghost predicate Valid()
      reads this
    {
      Consistent(docs, nextId)
    }

    constructor ()
      ensures Valid() && docs == [] && nextId == 0
    {
      docs := [];
      nextId := 0;
    }

    /**
     * POST /add: the new record gets NextSerial and is stored only when the schema accepts
     * it; otherwise ("Something went wrong") nothing changes.
     */
    method Add(user: UserId, form: JobForm, generatedUuid: string) returns (r: Result<DocId, map<string, Violation>>)
      requires Valid()
      modifies this
      ensures Valid()
      ensures var v := NewRecord(user, form, old(nextId), NextSerial(old(docs), user), generatedUuid);
        && (r.Success? <==> v.Success?)
        && (v.Success? ==> r.value == old(nextId) && docs == old(docs) + [v.value] && nextId == old(nextId) + 1)
        && (v.Failure? ==> r.error == v.error && docs == old(docs) && nextId == old(nextId))
    {
      var serialNo := NextSerial(docs, user);
      var v := NewRecord(user, form, nextId, serialNo, generatedUuid);
      if v.Failure? {
        return Failure(v.error);
      }
      docs := docs + [v.value];
      r := Success(nextId);
      nextId := nextId + 1;
    }

    /**
     * POST /edit/:id: overwrite the six form fields of the record with that identity, whoever
     * owns it, and save; a missing identity or a failing validation changes nothing.
     */
    method Edit(id: DocId, form: JobForm) returns (r: EditOutcome)
      requires Valid()
      modifies this
      ensures Valid() && nextId == old(nextId)
      ensures IndexOfId(old(docs), id).None? ==> r == EditNotFound && docs == old(docs)
      ensures IndexOfId(old(docs), id).Some? ==>
        var k := IndexOfId(old(docs), id).value;
        var v := EditedRecord(old(docs)[k], form);
        && (v.Failure? ==> r == EditInvalid(v.error) && docs == old(docs))
        && (v.Success? ==> r == EditSaved && docs == old(docs)[k := v.value])
    {
      var found := IndexOfId(docs, id);
      if found.None? {
        return EditNotFound;
      }
      var k := found.value;
      var v := EditedRecord(docs[k], form);
      if v.Failure? {
        return EditInvalid(v.error);
      }
      docs := docs[k := v.value];
      r := EditSaved;
    }

    /**
     * POST /delete/:id: remove the record with that identity, whoever owns it; then give the
     * requester's remaining records, in ascending serial order, the serials 1, 2, 3, ...
     */
    method Delete(requester: UserId, id: DocId) returns (r: DeleteOutcome)
      requires Valid()
      modifies this
      ensures Valid() && nextId == old(nextId)
      ensures IndexOfId(old(docs), id).None? ==> r == DeleteNotFound && docs == old(docs)
      ensures IndexOfId(old(docs), id).Some? ==>
        r == DeleteDone && docs == Renumbered(RemoveAt(old(docs), IndexOfId(old(docs), id).value), requester)
    {
      var found := IndexOfId(docs, id);
      if found.None? {
        return DeleteNotFound;
      }
      ghost var base := RemoveAt(docs, found.value);
      DeleteKeepsConsistent(docs, found.value, requester, nextId);
      SerialOrderIdsDistinct(base, requester);
      var remaining := RemoveAt(docs, found.value);
      var order := SerialOrder(remaining, requester);
      var i := 0;
      while i < |order|
        invariant 0 <= i <= |order|
        invariant remaining == RenumberedBy(base, order[..i])
        invariant docs == old(docs) && nextId == old(nextId)
      {
        RenumberStep(base, order, i);
        remaining := SetSerial(remaining, order[i].id, i + 1);
        i := i + 1;
      }
      assert order[..|order|] == order;
      assert remaining == Renumbered(base, requester);
      assert Consistent(remaining, nextId);
      docs := remaining;
      r := DeleteDone;
    }
  }

  // ---------------------------------------------------------------------------------------
  // Lemmas about the renumbering

  lemma {:induction false} OwnedIdsDistinct(docs: seq<JobApplication>, u: UserId)
    requires IdsDistinct(docs)
    ensures IdsDistinct(Owned(docs, u))
  {
    if docs != [] {
      var n := |docs| - 1;
      var pre := docs[..n];
      assert IdsDistinct(pre) by {
        forall i, j | 0 <= i < j < |pre| ensures pre[i].id != pre[j].id {
          assert pre[i] == docs[i] && pre[j] == docs[j];
        }
      }
      OwnedIdsDistinct(pre, u);
      if docs[n].user == u {
        var o := Owned(pre, u);
        forall y | y in o ensures y.id != docs[n].id {
          assert y in pre;
          var k :| 0 <= k < n && pre[k] == y;
          assert docs[k] == y;
        }
        var r := o + [docs[n]];
        forall i, j | 0 <= i < j < |r| ensures r[i].id != r[j].id {
          if j == |o| {
            assert r[i] in o;
          } else {
            assert r[i] == o[i] && r[j] == o[j];
          }
        }
      }
    }
  }

  /** Records that agree on their owners have the same number of records per owner. */
  lemma {:induction false} OwnedCountSameUsers(a: seq<JobApplication>, b: seq<JobApplication>, u: UserId)
    requires |a| == |b|
    requires forall j | 0 <= j < |a| :: a[j].user == b[j].user
    ensures |Owned(a, u)| == |Owned(b, u)|
  {
    if a != [] {
      var n := |a| - 1;
      OwnedCountSameUsers(a[..n], b[..n], u);
    }
  }

  lemma SerialOrderIdsDistinct(docs: seq<JobApplication>, u: UserId)
    requires IdsDistinct(docs)
    ensures IdsDistinct(SerialOrder(docs, u))
    ensures |SerialOrder(docs, u)| == |Owned(docs, u)|
  {
    OwnedIdsDistinct(docs, u);
    SortByIdsDistinct(Owned(docs, u), SerialKey);
  }

  /** Looking an identity up in a sequence with one more record at its end. */
  lemma {:induction false} IndexOfIdSnoc(s: seq<JobApplication>, x: JobApplication, id: DocId)
    ensures IndexOfId(s + [x], id) ==
      match IndexOfId(s, id)
      case Some(k) => Some(k)
      case None => if x.id == id then Some(|s|) else None
  {
    if s != [] {
      assert (s + [x])[1..] == s[1..] + [x];
      IndexOfIdSnoc(s[1..], x, id);
    }
  }

  /** One iteration of the renumbering loop extends the renumbered prefix by one record. */
  lemma RenumberStep(base: seq<JobApplication>, order: seq<JobApplication>, i: nat)
    requires i < |order|
    requires IdsDistinct(order)
    ensures SetSerial(RenumberedBy(base, order[..i]), order[i].id, i + 1) == RenumberedBy(base, order[..i + 1])
  {
    var A := RenumberedBy(base, order[..i]);
    var L := SetSerial(A, order[i].id, i + 1);
    var R := RenumberedBy(base, order[..i + 1]);
    assert order[..i + 1] == order[..i] + [order[i]];
    forall j | 0 <= j < |base| ensures L[j] == R[j] {
      IndexOfIdSnoc(order[..i], order[i], base[j].id);
      if base[j].id == order[i].id {
        assert forall m | 0 <= m < i :: order[..i][m].id != base[j].id by {
          forall m | 0 <= m < i ensures order[..i][m].id != base[j].id {
            assert order[..i][m] == order[m];
          }
        }
      }
    }
  }

  /**
   * Where a record of the collection ends up in the serial order: u's records are found at
   * exactly one position, other users' records at none.
   */
  lemma PositionInOrder(docs: seq<JobApplication>, u: UserId, j: nat)
    requires IdsDistinct(docs) && j < |docs|
    ensures var order := SerialOrder(docs, u);
      && (IndexOfId(order, docs[j].id).Some? <==> docs[j].user == u)
      && (IndexOfId(order, docs[j].id).Some? ==> order[IndexOfId(order, docs[j].id).value] == docs[j])
  {
    var order := SerialOrder(docs, u);
    SerialOrderIdsDistinct(docs, u);
    var k := IndexOfId(order, docs[j].id);
    if k.Some? {
      var y := order[k.value];
      assert y in multiset(order);
      assert y in Owned(docs, u);
      var q :| 0 <= q < |docs| && docs[q] == y;
      assert q == j;
    }
    if docs[j].user == u {
      assert docs[j] in Owned(docs, u);
      assert docs[j] in multiset(Owned(docs, u));
      assert docs[j] in order;
      var p :| 0 <= p < |order| && order[p] == docs[j];
      assert k.Some? && k.value == p;
    }
  }

  /** Renumbering changes only serial numbers, and only those of u's records. */
  lemma RenumberedFrame(docs: seq<JobApplication>, u: UserId)
    requires IdsDistinct(docs)
    ensures var r := Renumbered(docs, u);
      && |r| == |docs|
      && forall j | 0 <= j < |docs| ::
           && r[j] == docs[j].(serialNo := r[j].serialNo)
           && (docs[j].user != u ==> r[j] == docs[j])
  {
    forall j | 0 <= j < |docs| {
      PositionInOrder(docs, u, j);
    }
  }

  /** After renumbering, u's serial numbers lie in 1..N. */
  lemma RenumberedInRange(docs: seq<JobApplication>, u: UserId)
    requires IdsDistinct(docs)
    ensures var r := Renumbered(docs, u);
      forall j | 0 <= j < |r| && r[j].user == u :: 1 <= r[j].serialNo <= |Owned(docs, u)|
  {
    var r := Renumbered(docs, u);
    SerialOrderIdsDistinct(docs, u);
    forall j | 0 <= j < |r| && r[j].user == u ensures 1 <= r[j].serialNo <= |Owned(docs, u)| {
      PositionInOrder(docs, u, j);
    }
  }

  /** After renumbering, every serial number in 1..N is carried by one of u's records. */
  lemma RenumberedCovers(docs: seq<JobApplication>, u: UserId)
    requires IdsDistinct(docs)
    ensures forall s | 1 <= s <= |Owned(docs, u)| :: HasSerial(Renumbered(docs, u), u, s)
  {
    var order := SerialOrder(docs, u);
    var r := Renumbered(docs, u);
    SerialOrderIdsDistinct(docs, u);
    forall s | 1 <= s <= |Owned(docs, u)| ensures HasSerial(r, u, s) {
      var y := order[s - 1];
      assert y in multiset(order);
      assert y in Owned(docs, u);
      var j :| 0 <= j < |docs| && docs[j] == y;
      PositionInOrder(docs, u, j);
      assert r[j].user == u && r[j].serialNo == s;
    }
  }

  /** After renumbering, no two of u's records share a serial number. */
  lemma RenumberedDistinct(docs: seq<JobApplication>, u: UserId)
    requires IdsDistinct(docs)
    ensures SerialsDistinct(Renumbered(docs, u), u)
  {
    var r := Renumbered(docs, u);
    forall i, j | 0 <= i < j < |r| && r[i].user == u && r[j].user == u ensures r[i].serialNo != r[j].serialNo {
      PositionInOrder(docs, u, i);
      PositionInOrder(docs, u, j);
    }
  }

  /** After renumbering, u's serial numbers are exactly 1..N without repetition. */
  lemma RenumberedDense(docs: seq<JobApplication>, u: UserId)
    requires IdsDistinct(docs)
    ensures Dense(Renumbered(docs, u), u)
    ensures SerialsDistinct(Renumbered(docs, u), u)
    ensures |Owned(Renumbered(docs, u), u)| == |Owned(docs, u)|
  {
    RenumberedFrame(docs, u);
    OwnedCountSameUsers(Renumbered(docs, u), docs, u);
    RenumberedInRange(docs, u);
    RenumberedCovers(docs, u);
    RenumberedDistinct(docs, u);
  }

  lemma RemoveAtKeepsValid(docs: seq<JobApplication>, k: nat, nextId: DocId)
    requires Consistent(docs, nextId) && k < |docs|
    ensures Consistent(RemoveAt(docs, k), nextId)
  {
    var r := RemoveAt(docs, k);
    forall i, j | 0 <= i < j < |r| ensures r[i].id != r[j].id {
      var i' := if i < k then i else i + 1;
      var j' := if j < k then j else j + 1;
      assert r[i] == docs[i'] && r[j] == docs[j'];
    }
    forall i, j | 0 <= i < j < |r| && r[i].user == r[j].user ensures r[i].serialNo != r[j].serialNo {
      var i' := if i < k then i else i + 1;
      var j' := if j < k then j else j + 1;
      assert r[i] == docs[i'] && r[j] == docs[j'];
    }
  }

  lemma DeleteKeepsConsistent(docs: seq<JobApplication>, k: nat, u: UserId, nextId: DocId)
    requires Consistent(docs, nextId) && k < |docs|
    ensures Consistent(RemoveAt(docs, k), nextId)
    ensures Consistent(Renumbered(RemoveAt(docs, k), u), nextId)
  {
    RemoveAtKeepsValid(docs, k, nextId);
    RenumberedKeepsValid(RemoveAt(docs, k), u, nextId);
  }

  lemma RenumberedKeepsValid(docs: seq<JobApplication>, u: UserId, nextId: DocId)
    requires Consistent(docs, nextId)
    ensures Consistent(Renumbered(docs, u), nextId)
  {
    var r := Renumbered(docs, u);
    RenumberedFrame(docs, u);
    RenumberedDense(docs, u);
    forall i, j | 0 <= i < j < |r| && r[i].user == r[j].user ensures r[i].serialNo != r[j].serialNo {
      if r[i].user != u {
        assert r[i] == docs[i] && r[j] == docs[j];
      }
    }
    forall i | 0 <= i < |r| ensures r[i].id < nextId && WellFormed(r[i]) && r[i].serialNo >= 1 {
      assert r[i] == docs[i].(serialNo := r[i].serialNo);
    }
  }

  // ---------------------------------------------------------------------------------------
  // What add and delete do to the serial numbers

  /** Owned distributes over concatenation. */
  lemma {:induction false} OwnedAppend(a: seq<JobApplication>, b: seq<JobApplication>, u: UserId)
    ensures Owned(a + b, u) == Owned(a, u) + Owned(b, u)
  {
    if b == [] {
      assert a + b == a;
    } else {
      var n := |b| - 1;
      var ab := a + b;
      var tail := if b[n].user == u then [b[n]] else [];
      OwnedAppend(a, b[..n], u);
      assert ab[..|ab| - 1] == a + b[..n];
      assert ab[|ab| - 1] == b[n];
      assert Owned(ab, u) == Owned(a + b[..n], u) + tail;
      assert Owned(b, u) == Owned(b[..n], u) + tail;
    }
  }

  /** Removing a record takes one record away from its owner and none from anybody else. */
  lemma OwnedCountRemove(docs: seq<JobApplication>, k: nat, u: UserId)
    requires k < |docs|
    ensures |Owned(RemoveAt(docs, k), u)| == |Owned(docs, u)| - (if docs[k].user == u then 1 else 0)
  {
    assert docs == docs[..k] + [docs[k]] + docs[k + 1..];
    OwnedAppend(docs[..k] + [docs[k]], docs[k + 1..], u);
    OwnedAppend(docs[..k], [docs[k]], u);
    OwnedAppend(docs[..k], docs[k + 1..], u);
    assert [docs[k]][..0] == [];
  }

  /** While u's serials are 1..N, the serial number of u's next record is N + 1. */
  lemma DenseNextSerial(docs: seq<JobApplication>, u: UserId)
    requires Dense(docs, u)
    ensures NextSerial(docs, u) == |Owned(docs, u)| + 1
  {
    var n := |Owned(docs, u)|;
    if n == 0 {
      forall i | 0 <= i < |docs| ensures docs[i].user != u {
        assert docs[i] in docs;
      }
    } else {
      assert HasSerial(docs, u, n);
    }
  }

  lemma OwnedSnoc(docs: seq<JobApplication>, x: JobApplication, u: UserId)
    ensures Owned(docs + [x], u) == Owned(docs, u) + (if x.user == u then [x] else [])
  {
    assert (docs + [x])[..|docs|] == docs;
  }

  /**
   * Adding a record with the allocated serial number keeps every user's serial numbers
   * exactly 1..N without repetition: the new record's owner gains serial N + 1, everybody
   * else is untouched.
   */
  lemma AddKeepsDense(docs: seq<JobApplication>, x: JobApplication, u: UserId)
    requires Dense(docs, u) && SerialsDistinct(docs, u)
    requires x.serialNo == NextSerial(docs, x.user)
    ensures Dense(docs + [x], u) && SerialsDistinct(docs + [x], u)
    ensures |Owned(docs + [x], u)| == |Owned(docs, u)| + (if x.user == u then 1 else 0)
  {
    OwnedSnoc(docs, x, u);
    if x.user == u {
      DenseNextSerial(docs, u);
    }
    AddCovers(docs, x, u);
  }

  lemma AddCovers(docs: seq<JobApplication>, x: JobApplication, u: UserId)
    requires Dense(docs, u)
    requires x.user == u ==> x.serialNo == |Owned(docs, u)| + 1
    ensures forall s | 1 <= s <= |Owned(docs, u)| + (if x.user == u then 1 else 0) :: HasSerial(docs + [x], u, s)
  {
    var d := docs + [x];
    forall s | 1 <= s <= |Owned(docs, u)| + (if x.user == u then 1 else 0) ensures HasSerial(d, u, s) {
      if s <= |Owned(docs, u)| {
        assert HasSerial(docs, u, s);
        var i :| 0 <= i < |docs| && docs[i].user == u && docs[i].serialNo == s;
        assert d[i] == docs[i];
      } else {
        assert d[|docs|] == x;
      }
    }
  }

  /**
   * A delete leaves the serial numbers of every user other than the requester and the
   * deleted record's owner exactly as they were, so they stay 1..N.
   */
  lemma DeleteKeepsBystandersDense(docs: seq<JobApplication>, k: nat, requester: UserId, v: UserId)
    requires IdsDistinct(docs) && k < |docs|
    requires Dense(docs, v) && SerialsDistinct(docs, v)
    requires v != requester && v != docs[k].user
    ensures Dense(Renumbered(RemoveAt(docs, k), requester), v)
    ensures SerialsDistinct(Renumbered(RemoveAt(docs, k), requester), v)
  {
    RemoveAtIdsDistinct(docs, k);
    RemoveAtKeepsOthers(docs, k, v);
    RenumberedKeepsOthers(RemoveAt(docs, k), requester, v);
  }

  lemma RemoveAtIdsDistinct(docs: seq<JobApplication>, k: nat)
    requires IdsDistinct(docs) && k < |docs|
    ensures IdsDistinct(RemoveAt(docs, k))
  {
    var base := RemoveAt(docs, k);
    forall i, j | 0 <= i < j < |base| ensures base[i].id != base[j].id {
      assert base[i] == docs[if i < k then i else i + 1];
      assert base[j] == docs[if j < k then j else j + 1];
    }
  }

  /** Removing a record of another user leaves v's serial numbers dense and distinct. */
  lemma RemoveAtKeepsOthers(docs: seq<JobApplication>, k: nat, v: UserId)
    requires k < |docs| && v != docs[k].user
    requires Dense(docs, v) && SerialsDistinct(docs, v)
    ensures Dense(RemoveAt(docs, k), v) && SerialsDistinct(RemoveAt(docs, k), v)
  {
    var base := RemoveAt(docs, k);
    OwnedCountRemove(docs, k, v);
    RemoveAtCovers(docs, k, v);
    forall i | 0 <= i < |base| ensures base[i] == docs[if i < k then i else i + 1] {
    }
  }

  lemma RemoveAtCovers(docs: seq<JobApplication>, k: nat, v: UserId)
    requires k < |docs| && v != docs[k].user
    requires forall s | 1 <= s <= |Owned(docs, v)| :: HasSerial(docs, v, s)
    ensures forall s | 1 <= s <= |Owned(docs, v)| :: HasSerial(RemoveAt(docs, k), v, s)
  {
    var base := RemoveAt(docs, k);
    forall s | 1 <= s <= |Owned(docs, v)| ensures HasSerial(base, v, s) {
      assert HasSerial(docs, v, s);
      var i :| 0 <= i < |docs| && docs[i].user == v && docs[i].serialNo == s;
      var i' := if i < k then i else i - 1;
      assert base[i'] == docs[i];
    }
  }

  /** Renumbering for u leaves another user's serial numbers dense and distinct. */
  lemma RenumberedKeepsOthers(docs: seq<JobApplication>, u: UserId, v: UserId)
    requires IdsDistinct(docs) && v != u
    requires Dense(docs, v) && SerialsDistinct(docs, v)
    ensures Dense(Renumbered(docs, u), v) && SerialsDistinct(Renumbered(docs, u), v)
  {
    var r := Renumbered(docs, u);
    RenumberedFrame(docs, u);
    OwnedCountSameUsers(r, docs, v);
    forall s | 1 <= s <= |Owned(r, v)| ensures HasSerial(r, v, s) {
      assert HasSerial(docs, v, s);
      var i :| 0 <= i < |docs| && docs[i].user == v && docs[i].serialNo == s;
      assert r[i] == docs[i];
    }
  }

  /**
   * Renumbering keeps the relative order: of two of u's records with distinct serial
   * numbers, the one with the smaller old serial gets the smaller new one.
   */
  lemma RenumberedKeepsOrder(docs: seq<JobApplication>, u: UserId, i: nat, j: nat)
    requires IdsDistinct(docs) && SerialsDistinct(docs, u)
    requires i < |docs| && j < |docs| && docs[i].user == u && docs[j].user == u
    ensures var r := Renumbered(docs, u);
      docs[i].serialNo < docs[j].serialNo <==> r[i].serialNo < r[j].serialNo
  {
    var order := SerialOrder(docs, u);
    SortByAscending(Owned(docs, u), SerialKey);
    PositionInOrder(docs, u, i);
    PositionInOrder(docs, u, j);
    var ki := IndexOfId(order, docs[i].id).value;
    var kj := IndexOfId(order, docs[j].id).value;
    if i != j {
      assert docs[i].serialNo != docs[j].serialNo;
      if ki < kj {
        assert SerialKey(order[ki]) <= SerialKey(order[kj]);
      } else if kj < ki {
        assert SerialKey(order[kj]) <= SerialKey(order[ki]);
      }
    }
  }

  /** Two records of one user with serial numbers 1 and 2 are dense. */
  lemma PairDense(a: JobApplication, b: JobApplication)
    requires a.user == b.user && a.serialNo == 1 && b.serialNo == 2
    ensures Dense([a, b], a.user) && SerialsDistinct([a, b], a.user)
  {
    var docs := [a, b];
    assert docs[..1] == [a];
    assert [a][..0] == [];
    assert Owned(docs, a.user) == [a, b];
    assert HasSerial(docs, a.user, 1) by { assert docs[0].serialNo == 1; }
    assert HasSerial(docs, a.user, 2) by { assert docs[1].serialNo == 2; }
  }

  /**
   * The missing ownership check in action: when a stranger deletes the first of u's two
   * records (serials 1 and 2), u's remaining record is not renumbered and u is left with
   * serial 2 alone.
   */
  lemma ForeignDeleteLeavesGap(a: JobApplication, b: JobApplication, stranger: UserId)
    requires a.user == b.user && a.user != stranger
    requires a.serialNo == 1 && b.serialNo == 2
    ensures Dense([a, b], a.user)
    ensures Renumbered(RemoveAt([a, b], 0), stranger) == [b]
    ensures !Dense(Renumbered(RemoveAt([a, b], 0), stranger), a.user)
  {
    PairDense(a, b);
    assert RemoveAt([a, b], 0) == [b];
    assert [b][..0] == [];
    assert Owned([b], stranger) == [];
    assert Owned([b], a.user) == [b];
    assert Renumbered([b], stranger)[0] == b;
  }
}
