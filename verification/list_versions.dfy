/** The two "list available versions" operations: the installer's, which
    asks for the catalog with or without pre-releases, and the updater's,
    which asks the older catalog and drops betas itself. Both print a table
    of version and publication date, newest first, and neither runs a
    command. */
module ListVersions {
  import opened Wrappers
  import opened Console
  import opened Environment
  import Releases
  import Versions
  import Http

  const Headers := ["Version", "Publish date"]
  const Heading := "List of available releases:"
  const NoReleasesMessage := "No releases are available at this moment. Run with -ip to include pre-release versions"
  const NoLegacyReleasesMessage := "No releases are available at this moment. Please try again after some time"

  /** One row per release: the version as written, and the publication date
      as the locale's long date-time format writes it. */
  function Rows(rs: seq<Releases.Release>, formatDate: string -> string): (rows: seq<seq<string>>)
    ensures |rows| == |rs|
    ensures forall i :: 0 <= i < |rs| ==> rows[i] == [Versions.ToString(rs[i].version), formatDate(rs[i].publishedAt)]
  {
    seq(|rs|, i requires 0 <= i < |rs| => [Versions.ToString(rs[i].version), formatDate(rs[i].publishedAt)])
  }

  /** The installer's table: not legacy, updateable, newest first. */
  function Shown(rs: seq<Releases.Release>): seq<Releases.Release> {
    Releases.Sort(Releases.Updateable(Releases.NotLegacy(rs)))
  }

  /** The updater's table: not legacy, updateable, no betas unless asked
      for, newest first. */
  function LegacyShown(rs: seq<Releases.Release>, includeBeta: bool): seq<Releases.Release> {
    Releases.Sort(Releases.BetaFilter(Releases.Updateable(Releases.NotLegacy(rs)), includeBeta))
  }

  /** The modes, then the heading and a blank line. */
  function Announced(verbose: bool, alwaysYes: bool, s: State): (r: State)
    ensures r.ran == s.ran && r.input == s.input && r.verbose == verbose && r.alwaysYes == alwaysYes
    ensures |r.trace| >= 2 && r.trace[|r.trace| - 2..] == [Out(Heading), Out("")]
  {
    PrintLines(SetAlwaysYesMode(SetVerboseMode(s, verbose), alwaysYes), [Heading, ""])
  }

  /** The installer's `ListAvailableVersions.execute`: the modes, the
      heading, the catalog (empty on an unsuccessful answer); an empty list
      prints a hint and exits, any other one becomes the table. */
  function Run(verbose: bool, alwaysYes: bool, includePre: bool, w: World, formatDate: string -> string, s: State): (r: Step<()>)
    ensures r.state.ran == s.ran && r.state.input == s.input
    ensures var f := Fetch(Releases.AllRequest(includePre), w.catalog);
            var a := Announced(verbose, alwaysYes, s);
            && (f.Failure? ==> r == Halt(a, Raised(f.error)))
            && (f.Success? && Http.OrElse(f.value, []) == [] ==> r == Halt(Emit(a, Out(NoReleasesMessage)), Exited(0)))
            && (f.Success? && Http.OrElse(f.value, []) != [] ==>
                  r == Next((), Emit(a, Table(Headers, Rows(Shown(Http.OrElse(f.value, [])), formatDate)))))
  {
    var announced := Announced(verbose, alwaysYes, s);
    var fetched :- Lift(announced, Fetch(Releases.AllRequest(includePre), w.catalog));
    var releases := Http.OrElse(fetched.0, []);
    if |releases| == 0 then Exit(Emit(announced, Out(NoReleasesMessage)))
    else Next((), ShowTable(announced, Rows(Shown(releases), formatDate), Headers))
  }

  /** The updater's `ListAvailableVersions.execute`: the catalog first; an
      empty list prints a hint and exits, any other one the heading and the
      table, even when every release is filtered out. */
  function LegacyRun(includeBeta: bool, w: World, formatDate: string -> string, s: State): (r: Step<()>)
    ensures r.state.ran == s.ran && r.state.input == s.input
    ensures var f := Fetch(Releases.AllLegacyRequest(), w.catalog);
            && (f.Failure? ==> r == Halt(s, Raised(f.error)))
            && (f.Success? && Http.OrElse(f.value, []) == [] ==> r == Halt(Emit(s, Out(NoLegacyReleasesMessage)), Exited(0)))
            && (f.Success? && Http.OrElse(f.value, []) != [] ==>
                  r == Next((), Emit(Emit(s, Out(Heading)), Table(Headers, Rows(LegacyShown(Http.OrElse(f.value, []), includeBeta), formatDate)))))
  {
    var fetched :- Lift(s, Fetch(Releases.AllLegacyRequest(), w.catalog));
    var releases := Http.OrElse(fetched.0, []);
    if |releases| == 0 then Exit(Emit(s, Out(NoLegacyReleasesMessage)))
    else
      var headed := Emit(s, Out(Heading));
      Next((), ShowTable(headed, Rows(LegacyShown(releases, includeBeta), formatDate), Headers))
  }

  // ---------------------------------------------------------------------------
  // What the tables hold

  /** A sequence of releases none of which is legacy. */
  lemma NoneLegacyByCount(rs: seq<Releases.Release>)
    requires forall x :: multiset(rs)[x] > 0 ==> Releases.IsNotLegacy(x)
    ensures Releases.NoneLegacy(rs)
  {
    forall i | 0 <= i < |rs| ensures Releases.IsNotLegacy(rs[i]) {
      assert rs[i] in multiset(rs);
    }
  }

  /** The installer's table holds every updateable release as often as the
      list does and nothing else, newest first. */
  lemma ShownContents(rs: seq<Releases.Release>)
    ensures forall x :: multiset(Shown(rs))[x] == if Releases.IsUpdateable(x) then multiset(rs)[x] else 0
    ensures Releases.Descending(Shown(rs))
  {
    Releases.NotLegacyBeforeUpdateable(rs);
    var u := Releases.Updateable(rs);
    NoneLegacyByCount(u);
    Releases.SortDescending(u);
  }

  /** The updater's table holds every updateable release that is not a beta
      (or every updateable one with the flag) as often as the list does and
      nothing else, newest first. */
  lemma LegacyShownContents(rs: seq<Releases.Release>, includeBeta: bool)
    ensures forall x :: multiset(LegacyShown(rs, includeBeta))[x] ==
              if Releases.IsUpdateable(x) && (includeBeta || Releases.IsNotBeta(x)) then multiset(rs)[x] else 0
    ensures Releases.Descending(LegacyShown(rs, includeBeta))
  {
    Releases.NotLegacyBeforeUpdateable(rs);
    var b := Releases.BetaFilter(Releases.Updateable(rs), includeBeta);
    NoneLegacyByCount(b);
    Releases.SortDescending(b);
  }

  /** Every member of a list that is all updateable survives the filter. */
  lemma {:induction false} UpdateableKeepsAll(rs: seq<Releases.Release>)
    requires forall x :: x in rs ==> Releases.IsUpdateable(x)
    ensures Releases.Updateable(rs) == rs
  {
    if |rs| > 0 {
      assert rs == [rs[0]] + rs[1..];
      assert rs[0] in rs;
      assert forall x :: x in rs[1..] ==> x in rs;
      UpdateableKeepsAll(rs[1..]);
    }
  }

  /** The installer's own filters and sort undo nothing the query did: the
      table lists the catalog's answer in the order it came. */
  lemma ShownIsCatalogOrder(raws: seq<Releases.RawRelease>, includePre: bool)
    requires Releases.All(raws, includePre).Success?
    ensures Shown(Releases.All(raws, includePre).value) == Releases.All(raws, includePre).value
  {
    var all := Releases.All(raws, includePre).value;
    Releases.AllFiltered(raws, includePre);
    Releases.AllContents(raws, includePre);
    Releases.NotLegacyBeforeUpdateable(all);
    UpdateableKeepsAll(all);
    Releases.SortKeepsDescending(all);
  }

  /** The installer's table, when there is one, right after the heading: a
      row per release of the catalog's answer, in that order. */
  lemma RunShowsCatalog(verbose: bool, alwaysYes: bool, includePre: bool, w: World, formatDate: string -> string, s: State)
    requires w.catalog.Answered? && w.catalog.status < 300
    requires Releases.All(w.catalog.body, includePre).Success? && Releases.All(w.catalog.body, includePre).value != []
    ensures var r := Run(verbose, alwaysYes, includePre, w, formatDate, s);
            var listed := Releases.All(w.catalog.body, includePre).value;
            && r.Next? && |r.state.trace| >= 3
            && r.state.trace[|r.state.trace| - 3..] == [Out(Heading), Out(""), Table(Headers, Rows(listed, formatDate))]
  {
    var listed := Releases.All(w.catalog.body, includePre).value;
    CatalogAnswer(includePre, w.catalog);
    ShownIsCatalogOrder(w.catalog.body, includePre);
    RunShowsList(verbose, alwaysYes, includePre, w, formatDate, s, listed);
  }

  lemma RunShowsList(verbose: bool, alwaysYes: bool, includePre: bool, w: World, formatDate: string -> string, s: State,
                     listed: seq<Releases.Release>)
    requires Fetch(Releases.AllRequest(includePre), w.catalog) == Success(Http.Ok(listed))
    requires listed != [] && Shown(listed) == listed
    ensures var r := Run(verbose, alwaysYes, includePre, w, formatDate, s);
            && r.Next? && |r.state.trace| >= 3
            && r.state.trace[|r.state.trace| - 3..] == [Out(Heading), Out(""), Table(Headers, Rows(listed, formatDate))]
  {
    var a := Announced(verbose, alwaysYes, s);
    var f := Fetch(Releases.AllRequest(includePre), w.catalog);
    assert Http.OrElse(f.value, []) == listed;
    TableAfterHeading(a, Table(Headers, Rows(listed, formatDate)), Run(verbose, alwaysYes, includePre, w, formatDate, s));
  }

  /** A table emitted right after the heading and its blank line. */
  lemma TableAfterHeading(a: State, t: Event, r: Step<()>)
    requires |a.trace| >= 2 && a.trace[|a.trace| - 2..] == [Out(Heading), Out("")]
    requires r == Next((), Emit(a, t))
    ensures r.Next? && |r.state.trace| >= 3 && r.state.trace[|r.state.trace| - 3..] == [Out(Heading), Out(""), t]
  {
    assert r.state.trace == a.trace + [t];
    LastThree(a.trace, t);
  }

  /** A successful answer whose body decodes is the decoded list. */
  lemma CatalogAnswer(includePre: bool, x: Http.Exchange<seq<Releases.RawRelease>>)
    requires x.Answered? && x.status < 300 && Releases.All(x.body, includePre).Success?
    ensures Fetch(Releases.AllRequest(includePre), x) == Success(Http.Ok(Releases.All(x.body, includePre).value))
  {
  }

  lemma LastThree<X>(xs: seq<X>, x: X)
    requires |xs| >= 2
    ensures (xs + [x])[|xs| - 2..] == xs[|xs| - 2..] + [x]
  {
  }

  /** The updater prints a table even when the filters leave nothing: a
      catalog of betas only, without the flag, gives the heading and an empty
      table rather than the hint. */
  lemma LegacyBetasOnlyEmptyTable(w: World, formatDate: string -> string, s: State)
    requires w.catalog.Answered? && w.catalog.status < 300
    requires Releases.AllLegacy(w.catalog.body).Success? && Releases.AllLegacy(w.catalog.body).value != []
    requires forall x :: x in Releases.AllLegacy(w.catalog.body).value ==> !Releases.IsNotBeta(x)
    ensures LegacyRun(false, w, formatDate, s) == Next((), Emit(Emit(s, Out(Heading)), Table(Headers, [])))
  {
    var listed := Releases.AllLegacy(w.catalog.body).value;
    var f := Fetch(Releases.AllLegacyRequest(), w.catalog);
    assert f == Success(Http.Ok(listed));
    BetasOnlyShowNothing(listed);
  }

  lemma BetasOnlyShowNothing(rs: seq<Releases.Release>)
    requires forall x :: x in rs ==> !Releases.IsNotBeta(x)
    ensures LegacyShown(rs, false) == []
  {
    LegacyShownContents(rs, false);
  }
}
