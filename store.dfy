/**
 The page's state: the module-level `applications` array and the edit mode
 kept in `jobForm.dataset.editId` together with the submit listener that is
 swapped between `handleFormSubmit` and `handleFormUpdate`.
 */
module Store {
  import opened Records
  import opened Collection
  import opened Views

  /** Which submit handler the form runs: add a new record, or update record `id`. */
  datatype EditMode = Create | Edit(id: int)

  class Tracker {
    var applications: seq<Application>
    var mode: EditMode

    /** Page load: the parsed stored list if there is one, otherwise the sample data. */
    constructor (stored: Option<seq<Application>>)
      ensures applications == if stored.Some? then stored.value else SampleApplications
      ensures mode == Create
    {
      applications := if stored.Some? then stored.value else SampleApplications;
      mode := Create;
    }

    /** `handleFormSubmit`: puts a record built from the form, with id `id`, at the front. */
    method Add(id: int, f: Fields) returns (app: Application)
      modifies this
      ensures app.id == id && FieldsOf(app) == f
      ensures applications == [app] + old(applications)
      ensures |applications| == |old(applications)| + 1 && applications[1..] == old(applications)
      ensures mode == old(mode)
      ensures UniqueIds(applications) <==> UniqueIds(old(applications)) && !HasId(old(applications), id)
    {
      app := Build(id, f);
      applications := [app] + applications;
      PrependUnique(app, old(applications));
      assert applications[1..] == old(applications);
    }

    /** `editApplication`: for a present id, hands back the values to fill the form with
        and switches the form to updating that id; for an absent id does nothing. */
    method StartEdit(id: int) returns (filled: Option<Fields>)
      modifies this
      ensures applications == old(applications)
      ensures filled.None? <==> !HasId(applications, id)
      ensures filled.None? ==> mode == old(mode)
      ensures filled.Some? ==> mode == Edit(id) && Find(applications, id) == Some(Build(id, filled.value))
    {
      var found := Find(applications, id);
      if found.None? {
        return None;
      }
      filled := Some(FieldsOf(found.value));
      mode := Edit(id);
    }

    /** `handleFormUpdate`: replaces the first record carrying the edited id with the form
        values and returns to adding. When no record carries that id (or the form is not
        editing, where `parseInt` of the missing id matches nothing) nothing changes and
        the form stays in its mode. */
    method Update(f: Fields) returns (updated: bool)
      modifies this
      ensures updated <==> old(mode).Edit? && HasId(old(applications), old(mode).id)
      ensures updated ==> applications == ReplaceById(old(applications), old(mode).id, f)
      ensures updated ==> Find(applications, old(mode).id) == Some(Build(old(mode).id, f))
      ensures updated ==> mode == Create
      ensures !updated ==> applications == old(applications) && mode == old(mode)
      ensures UniqueIds(old(applications)) ==> UniqueIds(applications)
    {
      var index := if mode.Edit? then FindIndex(applications, mode.id) else -1;
      updated := index != -1;
      if updated {
        var id := mode.id;
        ReplaceThenFind(applications, id, f);
        applications := applications[index := Build(id, f)];
        mode := Create;
      }
    }

    /** `deleteApplication` after the confirmation dialog answered `confirmed`: keeps every
        record with another id. The edit mode is left alone, even when the deleted record is
        the one being edited. */
    method Delete(id: int, confirmed: bool)
      modifies this
      ensures applications == if confirmed then Without(old(applications), id) else old(applications)
      ensures confirmed ==> !HasId(applications, id)
      ensures mode == old(mode)
    {
      if confirmed {
        applications := Without(applications, id);
      }
    }

    /** A submit of the form: runs whichever handler is registered for the current mode.
        `freshId` is the `Date.now()` value a new record would get. */
    method Submit(freshId: int, f: Fields)
      modifies this
      ensures old(mode).Create? ==> applications == [Build(freshId, f)] + old(applications) && mode == Create
      ensures old(mode).Edit? ==> applications == ReplaceById(old(applications), old(mode).id, f)
      ensures old(mode).Edit? ==> (mode == Create <==> HasId(old(applications), old(mode).id))
      ensures old(mode).Edit? ==> mode == Create || mode == old(mode)
    {
      if mode.Create? {
        var _ := Add(freshId, f);
      } else {
        var _ := Update(f);
      }
    }

    /** The counting part of `updateChart`: all five statuses start at zero and each
        record with one of them adds one to its bucket; other statuses are skipped. */
    method StatusCounts() returns (counts: map<string, nat>)
      ensures counts.Keys == set s | s in Statuses
      ensures forall s :: s in counts ==> counts[s] == CountStatus(applications, s)
    {
      counts := map["Applied" := 0, "In Review" := 0, "Interview" := 0, "Offer" := 0, "Rejected" := 0];
      var i := 0;
      while i < |applications|
        invariant 0 <= i <= |applications|
        invariant counts.Keys == set s | s in Statuses
        invariant forall s :: s in counts ==> counts[s] == CountStatus(applications[..i], s)
      {
        var app := applications[i];
        assert applications[..i + 1][..i] == applications[..i];
        if app.status in counts {
          counts := counts[app.status := counts[app.status] + 1];
        }
        i := i + 1;
      }
      assert applications[..i] == applications;
    }
  }
}
