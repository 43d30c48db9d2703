/**
 The two views derived from the list: the rows `handleSearch` shows for a
 search term and a status filter, and the per-status counts `updateChart`
 plots.
 */
module Views {
  import opened Text
  import opened Seqs
  import opened Records
  import opened Collection

  /** The callback of `handleSearch`'s filter; `term` is the search input already lower-cased.
      Notes are searched only when they are non-empty. */
  function Matches(app: Application, term: string, statusValue: string): (r: bool)
    ensures r <==>
      (IsSubstring(term, Lower(app.company)) || IsSubstring(term, Lower(app.title)) ||
       (app.notes != "" && IsSubstring(term, Lower(app.notes)))) &&
      (statusValue == "" || app.status == statusValue)
  {
    var matchesSearch :=
      Includes(Lower(app.company), term) ||
      Includes(Lower(app.title), term) ||
      (app.notes != "" && Includes(Lower(app.notes), term));
    var matchesStatus := statusValue == "" || app.status == statusValue;
    matchesSearch && matchesStatus
  }

  /** The filter callback for a lower-cased term and a status filter. */
  function MatchesFor(term: string, statusValue: string): Application -> bool {
    (a: Application) => Matches(a, term, statusValue)
  }

  /** The rows `handleSearch` renders for the search input and the status select. */
  function Search(apps: seq<Application>, input: string, statusValue: string): (r: seq<Application>)
    ensures IsSubsequence(r, apps)
    ensures forall a :: a in r ==> a in apps && Matches(a, Lower(input), statusValue)
    ensures forall a :: a in apps && Matches(a, Lower(input), statusValue) ==> a in r
    ensures UniqueIds(apps) ==> UniqueIds(r)
  {
    var p := MatchesFor(Lower(input), statusValue);
    KeepIsSubsequence(apps, p);
    KeepUnique(apps, p);
    Keep(apps, p)
  }

  /** Each matching record is shown as often as it occurs in the list; others never. */
  lemma SearchMultiplicity(apps: seq<Application>, input: string, statusValue: string, a: Application)
    ensures multiset(Search(apps, input, statusValue))[a] ==
      if Matches(a, Lower(input), statusValue) then multiset(apps)[a] else 0
  {
    KeepMultiplicity(apps, MatchesFor(Lower(input), statusValue), a);
  }

  /** The non-empty guard on notes changes nothing: empty notes could only match an
      empty term, which the company already matches. */
  lemma NotesGuardRedundant(app: Application, term: string, statusValue: string)
    ensures Matches(app, term, statusValue) <==>
      (Includes(Lower(app.company), term) || Includes(Lower(app.title), term) ||
       Includes(Lower(app.notes), term)) &&
      (statusValue == "" || app.status == statusValue)
  {
    if app.notes == "" {
      assert Lower(app.notes) == "";
      EmptyIncludesOnlyEmpty(term);
      if term == "" {
        IncludesEmpty(Lower(app.company));
      }
    }
  }

  /** With an empty search box and no status selected every record is shown, in order. */
  lemma SearchUnconstrained(apps: seq<Application>)
    ensures Search(apps, "", "") == apps
  {
    assert Lower("") == "";
    forall a | a in apps ensures MatchesFor("", "")(a) {
      IncludesEmpty(Lower(a.company));
    }
    KeepAll(apps, MatchesFor("", ""));
  }

  /** The search ignores the case of what was typed. */
  lemma SearchIgnoresCase(apps: seq<Application>, input: string, statusValue: string)
    ensures Search(apps, input, statusValue) == Search(apps, Lower(input), statusValue)
  {
    LowerIdempotent(input);
  }

  /** Selecting a status only narrows the rows the search term alone would show. */
  lemma StatusFilterNarrows(apps: seq<Application>, input: string, statusValue: string)
    ensures IsSubsequence(Search(apps, input, statusValue), Search(apps, input, ""))
  {
    KeepNarrows(apps, MatchesFor(Lower(input), statusValue), MatchesFor(Lower(input), ""));
  }

  /** Typing "Tech" shows the first sample record, "Tech Solutions Inc.". */
  lemma SampleMatchesTech()
    ensures SampleApplications[0] in Search(SampleApplications, "Tech", "")
  {
    var company := Lower(SampleApplications[0].company);
    assert Lower("Tech") == "tech";
    assert company[0..4] == "tech";
    assert OccursAt(company, "tech", 0);
  }

  /** The number of records whose status is exactly `status`. */
  function CountStatus(apps: seq<Application>, status: string): (n: nat)
    ensures n <= |apps|
  {
    if apps == [] then 0
    else CountStatus(apps[..|apps| - 1], status) + (if apps[|apps| - 1].status == status then 1 else 0)
  }

  /** The statuses of the records, in order. */
  function StatusList(apps: seq<Application>): seq<string> {
    seq(|apps|, i requires 0 <= i < |apps| => apps[i].status)
  }

  /** The count of a status is its multiplicity among the records' statuses. */
  lemma {:induction false} CountIsMultiplicity(apps: seq<Application>, status: string)
    ensures CountStatus(apps, status) == multiset(StatusList(apps))[status]
  {
    if apps != [] {
      var init := apps[..|apps| - 1];
      CountIsMultiplicity(init, status);
      assert StatusList(apps) == StatusList(init) + [apps[|apps| - 1].status];
    }
  }

  /** The sum of the five chart buckets. */
  function TotalCount(apps: seq<Application>): nat {
    CountStatus(apps, Statuses[0]) + CountStatus(apps, Statuses[1]) + CountStatus(apps, Statuses[2]) +
    CountStatus(apps, Statuses[3]) + CountStatus(apps, Statuses[4])
  }

  /** The buckets never hold more than the list, and hold all of it exactly when every
      record has one of the five statuses. */
  lemma {:induction false} TotalCountBound(apps: seq<Application>)
    ensures TotalCount(apps) <= |apps|
    ensures TotalCount(apps) == |apps| <==> forall i :: 0 <= i < |apps| ==> apps[i].status in Statuses
  {
    if apps != [] {
      var init := apps[..|apps| - 1];
      TotalCountBound(init);
      assert forall i :: 0 <= i < |init| ==> init[i] == apps[i];
    }
  }

  /** Adding a record at the end adds one to its own status's count only. */
  lemma CountStatusSnoc(apps: seq<Application>, a: Application, status: string)
    ensures CountStatus(apps + [a], status) == CountStatus(apps, status) + if a.status == status then 1 else 0
  {
    assert (apps + [a])[..|apps|] == apps;
  }

  /** The sample data has distinct ids and exactly one record in each chart bucket. */
  lemma SampleCounts()
    ensures UniqueIds(SampleApplications)
    ensures forall i :: 0 <= i < |Statuses| ==> CountStatus(SampleApplications, Statuses[i]) == 1
  {
    var s := SampleApplications;
    forall i | 0 <= i < |Statuses| ensures CountStatus(s, Statuses[i]) == 1 {
      var st := Statuses[i];
      CountStatusSnoc([], s[0], st);
      CountStatusSnoc([s[0]], s[1], st);
      CountStatusSnoc([s[0], s[1]], s[2], st);
      CountStatusSnoc([s[0], s[1], s[2]], s[3], st);
      CountStatusSnoc([s[0], s[1], s[2], s[3]], s[4], st);
      assert [] + [s[0]] == [s[0]] && [s[0]] + [s[1]] == [s[0], s[1]];
      assert [s[0], s[1]] + [s[2]] == [s[0], s[1], s[2]];
      assert [s[0], s[1], s[2]] + [s[3]] == [s[0], s[1], s[2], s[3]];
      assert [s[0], s[1], s[2], s[3]] + [s[4]] == s;
      assert forall j :: 0 <= j < |s| ==> (s[j].status == st <==> s[j].status[2] == st[2]);
    }
  }
}
