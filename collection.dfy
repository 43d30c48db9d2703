/**
 Operations on the `applications` array that the handlers perform by id:
 `find`/`findIndex`, replacing the record at the found index, and the
 `filter` that deletes every record with a given id. Also the id-uniqueness
 invariant that `Date.now()` ids are meant to keep.
 */
module Collection {
  import opened Records
  import opened Seqs

  /** Some record carries `id`. */
  predicate HasId(apps: seq<Application>, id: int) {
    exists i :: 0 <= i < |apps| && apps[i].id == id
  }

  /** No two records share an id. */
  predicate UniqueIds(apps: seq<Application>) {
    forall i, j :: 0 <= i < j < |apps| ==> apps[i].id != apps[j].id
  }

  /** `apps.findIndex(a => a.id === id)`: the first index carrying `id`, or -1. */
  function FindIndex(apps: seq<Application>, id: int): (r: int)
    ensures -1 <= r < |apps|
    ensures r == -1 <==> !HasId(apps, id)
    ensures r != -1 ==> apps[r].id == id && forall j :: 0 <= j < r ==> apps[j].id != id
  {
    if apps == [] then -1
    else if apps[0].id == id then 0
    else
      var k := FindIndex(apps[1..], id);
      assert forall j :: 1 <= j < |apps| ==> apps[j] == apps[1..][j - 1];
      if k == -1 then -1 else k + 1
  }

  /** `apps.find(a => a.id === id)`: the first record carrying `id`, if any. */
  function Find(apps: seq<Application>, id: int): (r: Option<Application>)
    ensures r.None? <==> !HasId(apps, id)
    ensures r.Some? ==> r.value.id == id && r.value in apps
    ensures r.Some? ==>
      exists i :: 0 <= i < |apps| && apps[i] == r.value && forall j :: 0 <= j < i ==> apps[j].id != id
  {
    var i := FindIndex(apps, id);
    if i == -1 then None else Some(apps[i])
  }

  /** When ids are unique, looking up a record's id finds that very record. */
  lemma FindUnique(apps: seq<Application>, i: int)
    requires UniqueIds(apps) && 0 <= i < |apps|
    ensures Find(apps, apps[i].id) == Some(apps[i])
  {
    assert FindIndex(apps, apps[i].id) == i;
  }

  /** `findIndex` by id only looks at the ids: two lists with the same ids give the same index. */
  lemma {:induction false} FindIndexSameIds(apps: seq<Application>, other: seq<Application>, id: int)
    requires |apps| == |other|
    requires forall i :: 0 <= i < |apps| ==> apps[i].id == other[i].id
    ensures FindIndex(apps, id) == FindIndex(other, id)
  {
    if apps != [] && apps[0].id != id {
      FindIndexSameIds(apps[1..], other[1..], id);
    }
  }

  /** A record can be put in front keeping ids unique exactly when its id is new. */
  lemma PrependUnique(a: Application, apps: seq<Application>)
    ensures UniqueIds([a] + apps) <==> UniqueIds(apps) && !HasId(apps, a.id)
  {
    var s := [a] + apps;
    if UniqueIds(s) {
      forall i, j | 0 <= i < j < |apps| ensures apps[i].id != apps[j].id {
        assert s[i + 1] == apps[i] && s[j + 1] == apps[j];
      }
      forall i | 0 <= i < |apps| ensures apps[i].id != a.id {
        assert s[0] == a && s[i + 1] == apps[i];
        assert s[0].id != s[i + 1].id;
      }
    }
    if UniqueIds(apps) && !HasId(apps, a.id) {
      forall i, j | 0 <= i < j < |s| ensures s[i].id != s[j].id {
        assert s[j] == apps[j - 1];
        if i > 0 {
          assert s[i] == apps[i - 1];
        }
      }
    }
  }

  /** `applications[index] = {id, ...form}` at the first index carrying `id`; no change if none. */
  function ReplaceById(apps: seq<Application>, id: int, f: Fields): (r: seq<Application>)
    ensures |r| == |apps|
    ensures forall i :: 0 <= i < |r| ==> r[i].id == apps[i].id
    ensures forall i :: 0 <= i < |r| && r[i] != apps[i] ==> i == FindIndex(apps, id)
    ensures !HasId(apps, id) ==> r == apps
    ensures UniqueIds(apps) ==> UniqueIds(r)
  {
    var i := FindIndex(apps, id);
    if i == -1 then apps else apps[i := Build(id, f)]
  }

  /** After an update the record found under `id` holds exactly the submitted values. */
  lemma ReplaceThenFind(apps: seq<Application>, id: int, f: Fields)
    requires HasId(apps, id)
    ensures Find(ReplaceById(apps, id, f), id) == Some(Build(id, f))
  {
    var r := ReplaceById(apps, id, f);
    FindIndexSameIds(r, apps, id);
  }

  /** Two updates of the same id: the second one wins and the first leaves no trace. */
  lemma ReplaceLastWins(apps: seq<Application>, id: int, f: Fields, g: Fields)
    ensures ReplaceById(ReplaceById(apps, id, f), id, g) == ReplaceById(apps, id, g)
  {
    FindIndexSameIds(ReplaceById(apps, id, f), apps, id);
  }

  /** Submitting the values the edit handler copied into the form changes nothing. */
  lemma ReplaceWithOwnFields(apps: seq<Application>, id: int)
    requires HasId(apps, id)
    ensures ReplaceById(apps, id, FieldsOf(Find(apps, id).value)) == apps
  {
  }

  /** Filtering keeps ids unique, whatever the filter. */
  lemma {:induction false} KeepUnique(apps: seq<Application>, p: Application -> bool)
    ensures UniqueIds(apps) ==> UniqueIds(Keep(apps, p))
  {
    if apps != [] && UniqueIds(apps) {
      var a, rest := apps[0], apps[1..];
      PrependUnique(a, rest);
      KeepUnique(rest, p);
      if p(a) {
        var kept := Keep(rest, p);
        forall i | 0 <= i < |kept| ensures kept[i].id != a.id {
          assert kept[i] in rest;
          var j :| 0 <= j < |rest| && rest[j] == kept[i];
          assert apps[j + 1] == rest[j];
        }
        PrependUnique(a, kept);
      }
    }
  }

  /** The callback of the delete handler's filter. */
  function IdIsNot(id: int): Application -> bool {
    (a: Application) => a.id != id
  }

  /** `apps.filter(a => a.id !== id)`: every record with a different id, in order. */
  function Without(apps: seq<Application>, id: int): (r: seq<Application>)
    ensures !HasId(r, id)
    ensures forall a :: a in r ==> a in apps && a.id != id
    ensures forall a :: a in apps && a.id != id ==> a in r
    ensures IsSubsequence(r, apps)
    ensures UniqueIds(apps) ==> UniqueIds(r)
  {
    var r := Keep(apps, IdIsNot(id));
    assert forall i :: 0 <= i < |r| ==> r[i] in r;
    KeepIsSubsequence(apps, IdIsNot(id));
    KeepUnique(apps, IdIsNot(id));
    r
  }

  /** Deleting keeps every other record as often as it occurred, and no record with `id`. */
  lemma WithoutMultiplicity(apps: seq<Application>, id: int, a: Application)
    ensures multiset(Without(apps, id))[a] == if a.id != id then multiset(apps)[a] else 0
  {
    KeepMultiplicity(apps, IdIsNot(id), a);
  }

  /** Deleting an id nobody has leaves the list as it was. */
  lemma WithoutAbsent(apps: seq<Application>, id: int)
    requires !HasId(apps, id)
    ensures Without(apps, id) == apps
  {
    KeepAll(apps, IdIsNot(id));
  }

  /** Deleting twice is deleting once. */
  lemma WithoutTwice(apps: seq<Application>, id: int)
    ensures Without(Without(apps, id), id) == Without(apps, id)
  {
    WithoutAbsent(Without(apps, id), id);
  }

  /** With unique ids, deleting a present id removes exactly one record. */
  lemma {:induction false} WithoutRemovesOne(apps: seq<Application>, id: int)
    requires UniqueIds(apps) && HasId(apps, id)
    ensures |Without(apps, id)| == |apps| - 1
  {
    var a, rest := apps[0], apps[1..];
    PrependUnique(a, rest);
    assert apps == [a] + rest;
    if a.id == id {
      WithoutAbsent(rest, id);
    } else {
      var i :| 0 <= i < |apps| && apps[i].id == id;
      assert rest[i - 1].id == id;
      WithoutRemovesOne(rest, id);
    }
  }
}
