/**
 * The project seed reconciler: merges the canonical project list into the
 * `projects` table. The whole pass is one atomic transition of a
 * `ProjectTable` value; `Reconcile` is its specification and the lemmas
 * below state what the pass promises.
 */
module Seed {
  import opened Wrappers
  import opened Models

  /** One entry of the canonical list: every field is given. */
  datatype SeedProject = SeedProject(
    title: string,
    description: string,
    techStack: string,
    imageUrl: string,
    projectUrl: string,
    githubUrl: string)

  /** The canonical, ordered list of portfolio projects. */
  const CanonicalProjects: seq<SeedProject> := [
    SeedProject(
      "Connectify",
      "A modern social platform prototype with real\U{2011}time interactions.",
      "Flask, JS, Tailwind, Socket.io",
      "images/Connectify.png",
      "https://github.com/Rashik8606/Connectify",
      "https://github.com/Rashik8606/Connectify"),
    SeedProject(
      "OnlineMov",
      "Movie discovery app with search, filters, and watchlists.",
      "Flask, TMDB API, Tailwind, SQLite",
      "images/OnlineMov.png",
      "https://github.com/Rashik8606/Express-basics",
      "https://github.com/Rashik8606/Express-basics"),
    SeedProject(
      "Taskizo",
      "Task management app with drag\U{2011}and\U{2011}drop and reminders.",
      "Flask, JS, Tailwind, SQLAlchemy",
      "images/Taskizo.png",
      "https://github.com/Rashik8606/Job-Indeed",
      "https://github.com/Rashik8606/Job-Indeed"),
    SeedProject(
      "Vegstore",
      "E\U{2011}commerce demo focused on fresh produce with cart and checkout.",
      "Flask, Tailwind, SQLAlchemy",
      "images/Vegstore.png",
      "https://github.com/Rashik8606/vegstore",
      "https://github.com/Rashik8606/vegstore")
  ]

  /** The `projects` table with the id the storage hands out next and the clock. */
  datatype ProjectTable = ProjectTable(rows: seq<Project>, nextId: nat, clock: nat)

  predicate ValidTable(t: ProjectTable)
  {
    InsertionOrdered(t.rows, ProjectId, ProjectCreatedAt, t.nextId, t.clock)
  }

  /** Python's falsiness of a nullable string column: None or "". */
  predicate IsBlank(v: Option<string>)
  {
    v.None? || v.value == ""
  }

  /** An image reference the pass replaces: blank, the "#" placeholder, or external ("http..."). */
  predicate NeedsCanonicalImage(v: Option<string>)
  {
    IsBlank(v) || v.value == "#" || "http" <= v.value
  }

  /** The titles of a catalog. */
  function Titles(c: seq<SeedProject>): set<string>
  {
    set k | 0 <= k < |c| :: c[k].title
  }

  predicate DistinctTitles(c: seq<SeedProject>)
  {
    forall i, j :: 0 <= i < j < |c| ==> c[i].title != c[j].title
  }

  /** An entry whose fields the merge rules never replace once stored. */
  predicate WellFormedEntry(e: SeedProject)
  {
    e.description != "" && e.techStack != "" && !NeedsCanonicalImage(Some(e.imageUrl))
  }

  predicate WellFormedCatalog(c: seq<SeedProject>)
  {
    DistinctTitles(c) && forall k :: 0 <= k < |c| ==> WellFormedEntry(c[k])
  }

  /** Same storage identity: id, title and creation time. */
  predicate SameIdentity(p: Project, q: Project)
  {
    p.id == q.id && p.title == q.title && p.createdAt == q.createdAt
  }

  /** `filter_by(title=...).first()`: the index of the first row with that title, if any. */
  function FindByTitle(rows: seq<Project>, title: string): (r: Option<nat>)
    ensures r.Some? ==> r.value < |rows| && rows[r.value].title == title
    ensures r.Some? ==> forall j :: 0 <= j < r.value ==> rows[j].title != title
    ensures r.None? ==> forall j :: 0 <= j < |rows| ==> rows[j].title != title
  {
    if rows == [] then None
    else
      match FindByTitle(rows[..|rows| - 1], title)
      case Some(i) => Some(i)
      case None => if rows[|rows| - 1].title == title then Some(|rows| - 1) else None
  }

  /** The update of a matched row, field by field. */
  function Merge(p: Project, e: SeedProject): (r: Project)
    ensures SameIdentity(r, p)
  {
    p.(description := if p.description == "" then e.description else p.description,
       techStack := if IsBlank(p.techStack) then Some(e.techStack) else p.techStack,
       imageUrl := if NeedsCanonicalImage(p.imageUrl) then Some(e.imageUrl) else p.imageUrl,
       projectUrl := Some(e.projectUrl),
       githubUrl := Some(e.githubUrl))
  }

  /**
   * The row inserted for an entry whose title is not stored. It is already
   * settled: the merge rules leave it as it is.
   */
  function NewRow(e: SeedProject, id: nat, createdAt: nat): (r: Project)
    ensures r.title == e.title && r.id == id && r.createdAt == createdAt
    ensures Merge(r, e) == r
  {
    Project(id, e.title, e.description, Some(e.techStack), Some(e.imageUrl),
            Some(e.projectUrl), Some(e.githubUrl), createdAt)
  }

  /** One iteration of the pass: update the first row with the entry's title, or append one. */
  function ApplyEntry(t: ProjectTable, e: SeedProject): ProjectTable
  {
    match FindByTitle(t.rows, e.title)
    case Some(i) => t.(rows := t.rows[i := Merge(t.rows[i], e)])
    case None => ProjectTable(t.rows + [NewRow(e, t.nextId, t.clock)], t.nextId + 1, t.clock + 1)
  }

  /** The whole pass over the catalog, in catalog order, as one transition. */
  function Reconcile(t: ProjectTable, c: seq<SeedProject>): ProjectTable
  {
    if c == [] then t else ApplyEntry(Reconcile(t, c[..|c| - 1]), c[|c| - 1])
  }

  /** Row `i` is the one the pass may touch: the first row carrying one of the catalog's titles. */
  predicate Targeted(rows: seq<Project>, i: nat, c: seq<SeedProject>)
    requires i < |rows|
  {
    rows[i].title in Titles(c) && FindByTitle(rows, rows[i].title) == Some(i)
  }

  /** `b` extends `a` keeping the title of every row of `a`. */
  predicate TitlesExtend(a: seq<Project>, b: seq<Project>)
  {
    |a| <= |b| && forall j :: 0 <= j < |a| ==> b[j].title == a[j].title
  }

  /** A row found in `a` is found at the same index in a title-preserving extension `b`. */
  lemma FindInExtension(a: seq<Project>, b: seq<Project>, x: string)
    requires TitlesExtend(a, b) && FindByTitle(a, x).Some?
    ensures FindByTitle(b, x) == FindByTitle(a, x)
  {
    var p := FindByTitle(a, x).value;
    assert b[p].title == a[p].title;
    var q := FindByTitle(b, x).value;
    assert q <= p;
    assert a[q].title == b[q].title;
  }

  /** A row of `a` found first in a title-preserving extension `b` is found first in `a`. */
  lemma FindInPrefix(a: seq<Project>, b: seq<Project>, x: string)
    requires TitlesExtend(a, b) && FindByTitle(b, x).Some? && FindByTitle(b, x).value < |a|
    ensures FindByTitle(a, x) == FindByTitle(b, x)
  {
    var q := FindByTitle(b, x).value;
    assert a[q].title == b[q].title;
    var p := FindByTitle(a, x).value;
    assert b[p].title == a[p].title;
  }

  /** One iteration changes at most the row it finds, and appends only a row with the entry's title. */
  lemma ApplyEntryFrame(t: ProjectTable, e: SeedProject)
    ensures var r := ApplyEntry(t, e);
      TitlesExtend(t.rows, r.rows) && t.nextId <= r.nextId && t.clock <= r.clock &&
      (forall i :: 0 <= i < |t.rows| ==> SameIdentity(r.rows[i], t.rows[i])) &&
      (forall i :: 0 <= i < |t.rows| && t.rows[i].title != e.title ==> r.rows[i] == t.rows[i]) &&
      (forall i :: |t.rows| <= i < |r.rows| ==> r.rows[i].title == e.title)
  {
  }

  /** One iteration on a matched row replaces that row by its merge with the entry. */
  lemma ApplyEntryHits(t: ProjectTable, e: SeedProject, i: nat)
    requires FindByTitle(t.rows, e.title) == Some(i)
    ensures ApplyEntry(t, e) == t.(rows := t.rows[i := Merge(t.rows[i], e)])
  {
  }

  lemma TitlesSnoc(c: seq<SeedProject>)
    requires c != []
    ensures Titles(c) == Titles(c[..|c| - 1]) + {c[|c| - 1].title}
  {
    var c' := c[..|c| - 1];
    forall x | x in Titles(c) ensures x in Titles(c') + {c[|c| - 1].title} {
      var k :| 0 <= k < |c| && c[k].title == x;
      if k < |c'| { assert c'[k] == c[k]; }
    }
    forall x | x in Titles(c') ensures x in Titles(c) {
      var k :| 0 <= k < |c'| && c'[k].title == x;
      assert c[k] == c'[k];
    }
  }

  /** Dropping the last entry of a catalog with distinct titles keeps them distinct; the last title is new. */
  lemma DistinctSnoc(c: seq<SeedProject>)
    requires c != [] && DistinctTitles(c)
    ensures forall k :: 0 <= k < |c| - 1 ==> c[..|c| - 1][k] == c[k]
    ensures DistinctTitles(c[..|c| - 1]) && c[|c| - 1].title !in Titles(c[..|c| - 1])
  {
    var c' := c[..|c| - 1];
    assert forall k :: 0 <= k < |c'| ==> c'[k] == c[k];
  }

  /** The pass keeps the id, title and creation time of every old row and deletes none. */
  lemma {:induction false} ReconcileKeepsIdentity(t: ProjectTable, c: seq<SeedProject>)
    ensures var r := Reconcile(t, c);
      TitlesExtend(t.rows, r.rows) && t.nextId <= r.nextId && t.clock <= r.clock &&
      forall i :: 0 <= i < |t.rows| ==> SameIdentity(r.rows[i], t.rows[i])
  {
    if c != [] {
      var c', e := c[..|c| - 1], c[|c| - 1];
      ReconcileKeepsIdentity(t, c');
      ApplyEntryFrame(Reconcile(t, c'), e);
    }
  }

  /** The pass changes no old row other than the first row of each catalog title. */
  lemma {:induction false} ReconcileUntargeted(t: ProjectTable, c: seq<SeedProject>)
    ensures var r := Reconcile(t, c);
      |t.rows| <= |r.rows| &&
      forall i :: 0 <= i < |t.rows| && !Targeted(t.rows, i, c) ==> r.rows[i] == t.rows[i]
  {
    if c != [] {
      var c', e := c[..|c| - 1], c[|c| - 1];
      ReconcileUntargeted(t, c');
      ReconcileKeepsIdentity(t, c');
      TitlesSnoc(c);
      var m := Reconcile(t, c');
      ApplyEntryFrame(m, e);
      forall i | 0 <= i < |t.rows| && !Targeted(t.rows, i, c)
        ensures ApplyEntry(m, e).rows[i] == t.rows[i]
      {
        assert !Targeted(t.rows, i, c');
        if m.rows[i].title == e.title && FindByTitle(m.rows, e.title).value < |t.rows| {
          FindInPrefix(t.rows, m.rows, e.title);
        }
      }
    }
  }

  /** Every row the pass appends carries a catalog title. */
  lemma {:induction false} ReconcileAppendedTitles(t: ProjectTable, c: seq<SeedProject>)
    ensures var r := Reconcile(t, c);
      |t.rows| <= |r.rows| &&
      forall i :: |t.rows| <= i < |r.rows| ==> r.rows[i].title in Titles(c)
  {
    if c != [] {
      var c', e := c[..|c| - 1], c[|c| - 1];
      ReconcileAppendedTitles(t, c');
      TitlesSnoc(c);
      ApplyEntryFrame(Reconcile(t, c'), e);
    }
  }

  /**
   * Frame of the pass: rows are never deleted; no row's id, title or
   * creation time changes; only the first row carrying a catalog title is
   * touched; every appended row carries a catalog title.
   */
  lemma ReconcileFrame(t: ProjectTable, c: seq<SeedProject>)
    ensures var r := Reconcile(t, c);
      TitlesExtend(t.rows, r.rows) && t.nextId <= r.nextId && t.clock <= r.clock &&
      (forall i :: 0 <= i < |t.rows| ==> SameIdentity(r.rows[i], t.rows[i])) &&
      (forall i :: 0 <= i < |t.rows| && !Targeted(t.rows, i, c) ==> r.rows[i] == t.rows[i]) &&
      (forall i :: |t.rows| <= i < |r.rows| ==> r.rows[i].title in Titles(c))
  {
    ReconcileKeepsIdentity(t, c);
    ReconcileUntargeted(t, c);
    ReconcileAppendedTitles(t, c);
  }

  /**
   * A matched row: if the first row with the title of entry `k` is row `i`,
   * after the pass row `i` is exactly that row merged with entry `k`.
   */
  lemma {:induction false} ReconcileMatched(t: ProjectTable, c: seq<SeedProject>, k: nat, i: nat)
    requires DistinctTitles(c) && k < |c|
    requires FindByTitle(t.rows, c[k].title) == Some(i)
    ensures i < |Reconcile(t, c).rows| && Reconcile(t, c).rows[i] == Merge(t.rows[i], c[k])
  {
    var c', e := c[..|c| - 1], c[|c| - 1];
    DistinctSnoc(c);
    var m := Reconcile(t, c');
    assert Reconcile(t, c) == ApplyEntry(m, e);
    ReconcileKeepsIdentity(t, c');
    ApplyEntryFrame(m, e);
    if k == |c| - 1 {
      ReconcileUntargeted(t, c');
      assert !Targeted(t.rows, i, c');
      assert m.rows[i] == t.rows[i];
      FindInExtension(t.rows, m.rows, e.title);
      ApplyEntryHits(m, e, i);
    } else {
      ReconcileMatched(t, c', k, i);
      assert m.rows[i].title == c[k].title;
    }
  }

  /**
   * The merge rules, stated for the whole pass on a matched row `i` of entry
   * `k`: description and tech stack are filled only when blank; the image is
   * replaced only when blank, "#" or external, otherwise kept; both links
   * always take the canonical values; id, title and creation time are kept.
   */
  lemma ReconcileMatchedFields(t: ProjectTable, c: seq<SeedProject>, k: nat, i: nat)
    requires DistinctTitles(c) && k < |c|
    requires FindByTitle(t.rows, c[k].title) == Some(i)
    ensures i < |t.rows| && i < |Reconcile(t, c).rows|
    ensures var before, after, e := t.rows[i], Reconcile(t, c).rows[i], c[k];
      SameIdentity(after, before) &&
      after.description == (if before.description == "" then e.description else before.description) &&
      after.techStack == (if IsBlank(before.techStack) then Some(e.techStack) else before.techStack) &&
      (NeedsCanonicalImage(before.imageUrl) ==> after.imageUrl == Some(e.imageUrl)) &&
      (!NeedsCanonicalImage(before.imageUrl) ==> after.imageUrl == before.imageUrl) &&
      after.projectUrl == Some(e.projectUrl) && after.githubUrl == Some(e.githubUrl)
  {
    ReconcileMatched(t, c, k, i);
  }

  lemma TitlesMember(c: seq<SeedProject>, k: nat)
    requires k < |c|
    ensures c[k].title in Titles(c)
  {
  }

  /** The number of rows carrying `title`. */
  function CountTitle(rows: seq<Project>, title: string): nat
  {
    if rows == [] then 0
    else CountTitle(rows[..|rows| - 1], title) + (if rows[|rows| - 1].title == title then 1 else 0)
  }

  lemma {:induction false} CountZeroIff(rows: seq<Project>, x: string)
    ensures CountTitle(rows, x) == 0 <==> FindByTitle(rows, x).None?
  {
    if rows != [] {
      CountZeroIff(rows[..|rows| - 1], x);
    }
  }

  lemma {:induction false} CountUpdate(rows: seq<Project>, i: nat, p: Project, x: string)
    requires i < |rows| && p.title == rows[i].title
    ensures CountTitle(rows[i := p], x) == CountTitle(rows, x)
  {
    var n := |rows| - 1;
    if i < n {
      assert rows[i := p][..n] == rows[..n][i := p];
      CountUpdate(rows[..n], i, p, x);
    } else {
      assert rows[i := p][..n] == rows[..n];
    }
  }

  /** One iteration adds a row for the entry's title exactly when none had it; other counts stay. */
  lemma ApplyEntryCount(t: ProjectTable, e: SeedProject, x: string)
    ensures CountTitle(ApplyEntry(t, e).rows, x) ==
            CountTitle(t.rows, x) + if x == e.title && CountTitle(t.rows, x) == 0 then 1 else 0
  {
    CountZeroIff(t.rows, e.title);
    match FindByTitle(t.rows, e.title)
    case Some(j) =>
      ApplyEntryHits(t, e, j);
      CountUpdate(t.rows, j, Merge(t.rows[j], e), x);
    case None =>
      ApplyEntryAppends(t, e);
      assert (t.rows + [NewRow(e, t.nextId, t.clock)])[..|t.rows|] == t.rows;
  }

  /**
   * Row counts per title: a catalog title that had no row has exactly one
   * after the pass; every other title keeps its count (no row is added for
   * a matched title, and none is ever deleted).
   */
  lemma {:induction false} ReconcileCount(t: ProjectTable, c: seq<SeedProject>, x: string)
    requires DistinctTitles(c)
    ensures CountTitle(Reconcile(t, c).rows, x) ==
            if x in Titles(c) && CountTitle(t.rows, x) == 0 then 1 else CountTitle(t.rows, x)
  {
    if c != [] {
      var c', e := c[..|c| - 1], c[|c| - 1];
      DistinctSnoc(c);
      TitlesSnoc(c);
      ReconcileCount(t, c', x);
      var m := Reconcile(t, c');
      assert Reconcile(t, c) == ApplyEntry(m, e);
      ApplyEntryCount(m, e, x);
      if x == e.title {
        assert x !in Titles(c');
      }
    }
  }

  /** Appending a row with a title no row had makes it the first row with that title. */
  lemma FindAppended(rows: seq<Project>, p: Project)
    requires FindByTitle(rows, p.title).None?
    ensures FindByTitle(rows + [p], p.title) == Some(|rows|)
  {
    assert (rows + [p])[..|rows|] == rows;
  }

  /**
   * An unmatched entry: if no row had its title, the pass leaves exactly one
   * row with that title. It is appended after the old rows and carries every
   * canonical field, an id no smaller than the old next id and a creation
   * time no earlier than the old clock.
   */
  lemma {:induction false} ReconcileInserted(t: ProjectTable, c: seq<SeedProject>, k: nat)
    requires DistinctTitles(c) && k < |c|
    requires FindByTitle(t.rows, c[k].title).None?
    ensures CountTitle(Reconcile(t, c).rows, c[k].title) == 1
    ensures var r := Reconcile(t, c);
      FindByTitle(r.rows, c[k].title).Some? &&
      var j := FindByTitle(r.rows, c[k].title).value;
      |t.rows| <= j && r.rows[j] == NewRow(c[k], r.rows[j].id, r.rows[j].createdAt) &&
      t.nextId <= r.rows[j].id && t.clock <= r.rows[j].createdAt
  {
    CountZeroIff(t.rows, c[k].title);
    ReconcileCount(t, c, c[k].title);
    TitlesMember(c, k);
    var c', e := c[..|c| - 1], c[|c| - 1];
    DistinctSnoc(c);
    var m := Reconcile(t, c');
    assert Reconcile(t, c) == ApplyEntry(m, e);
    ReconcileKeepsIdentity(t, c');
    if k == |c| - 1 {
      ReconcileCount(t, c', e.title);
      CountZeroIff(m.rows, e.title);
      ApplyEntryAppends(m, e);
      FindAppended(m.rows, NewRow(e, m.nextId, m.clock));
    } else {
      ReconcileInserted(t, c', k);
      ApplyEntryFrame(m, e);
      FindInExtension(m.rows, ApplyEntry(m, e).rows, c[k].title);
    }
  }

  /** The rows a pass appends, in catalog order, when none of the catalog's titles is stored. */
  function Seeded(c: seq<SeedProject>, nextId: nat, clock: nat): seq<Project>
  {
    seq(|c|, k requires 0 <= k < |c| => NewRow(c[k], nextId + k, clock + k))
  }

  lemma SeededSnoc(c: seq<SeedProject>, nextId: nat, clock: nat)
    requires c != []
    ensures Seeded(c, nextId, clock) ==
      Seeded(c[..|c| - 1], nextId, clock) + [NewRow(c[|c| - 1], nextId + |c| - 1, clock + |c| - 1)]
  {
  }

  lemma ApplyEntryAppends(t: ProjectTable, e: SeedProject)
    requires FindByTitle(t.rows, e.title).None?
    ensures ApplyEntry(t, e) == ProjectTable(t.rows + [NewRow(e, t.nextId, t.clock)], t.nextId + 1, t.clock + 1)
  {
  }

  /** No appended row of the first entries carries the title of a later, distinct one. */
  lemma FindPastSeeded(rows: seq<Project>, c: seq<SeedProject>, nextId: nat, clock: nat, e: SeedProject)
    requires FindByTitle(rows, e.title).None?
    requires forall k :: 0 <= k < |c| ==> c[k].title != e.title
    ensures FindByTitle(rows + Seeded(c, nextId, clock), e.title).None?
  {
    var all := rows + Seeded(c, nextId, clock);
    forall j | 0 <= j < |all| ensures all[j].title != e.title {
      if j >= |rows| {
        assert all[j] == Seeded(c, nextId, clock)[j - |rows|];
      }
    }
  }

  /**
   * Insertion order: when none of the catalog's titles is stored, the pass
   * appends one new row per entry, in catalog order, with consecutive ids
   * and creation times.
   */
  lemma {:induction false} ReconcileInsertionOrder(t: ProjectTable, c: seq<SeedProject>)
    requires DistinctTitles(c)
    requires forall k :: 0 <= k < |c| ==> FindByTitle(t.rows, c[k].title).None?
    ensures Reconcile(t, c) == ProjectTable(t.rows + Seeded(c, t.nextId, t.clock), t.nextId + |c|, t.clock + |c|)
  {
    if c != [] {
      var c', e := c[..|c| - 1], c[|c| - 1];
      DistinctSnoc(c);
      ReconcileInsertionOrder(t, c');
      var m := Reconcile(t, c');
      assert Reconcile(t, c) == ApplyEntry(m, e);
      InsertionStep(t, c, m);
    }
  }

  /** The last entry of a catalog none of whose titles is stored is appended after the others. */
  lemma InsertionStep(t: ProjectTable, c: seq<SeedProject>, m: ProjectTable)
    requires c != [] && DistinctTitles(c)
    requires forall k :: 0 <= k < |c| ==> FindByTitle(t.rows, c[k].title).None?
    requires m == ProjectTable(t.rows + Seeded(c[..|c| - 1], t.nextId, t.clock), t.nextId + |c| - 1, t.clock + |c| - 1)
    ensures ApplyEntry(m, c[|c| - 1]) == ProjectTable(t.rows + Seeded(c, t.nextId, t.clock), t.nextId + |c|, t.clock + |c|)
  {
    var c', e := c[..|c| - 1], c[|c| - 1];
    DistinctSnoc(c);
    assert FindByTitle(t.rows, c[|c| - 1].title).None?;
    forall k | 0 <= k < |c'| ensures c'[k].title != e.title {
      assert c'[k] == c[k];
    }
    FindPastSeeded(t.rows, c', t.nextId, t.clock, e);
    ApplyEntryAppends(m, e);
    SeededSnoc(c, t.nextId, t.clock);
    assert t.rows + Seeded(c, t.nextId, t.clock) == m.rows + [NewRow(e, m.nextId, m.clock)];
  }

  /** One iteration keeps the table invariant. */
  lemma ApplyEntryPreservesValid(t: ProjectTable, e: SeedProject)
    requires ValidTable(t)
    ensures ValidTable(ApplyEntry(t, e))
  {
    var r := ApplyEntry(t, e);
    ApplyEntryFrame(t, e);
    assert forall i :: 0 <= i < |t.rows| ==> r.rows[i].id == t.rows[i].id && r.rows[i].createdAt == t.rows[i].createdAt;
  }

  /** The pass keeps the table invariant: ids and creation times still increase in table order. */
  lemma {:induction false} ReconcilePreservesValid(t: ProjectTable, c: seq<SeedProject>)
    requires ValidTable(t)
    ensures ValidTable(Reconcile(t, c))
  {
    if c != [] {
      ReconcilePreservesValid(t, c[..|c| - 1]);
      ApplyEntryPreservesValid(Reconcile(t, c[..|c| - 1]), c[|c| - 1]);
    }
  }

  /** Entry `e` is settled in `rows`: a row carries its title and merging `e` into the first such row changes nothing. */
  predicate Settled(rows: seq<Project>, e: SeedProject)
  {
    match FindByTitle(rows, e.title)
    case Some(i) => Merge(rows[i], e) == rows[i]
    case None => false
  }

  /**
   * Merging an entry twice is merging it once, for any entry: every field
   * the first merge writes already holds the entry's value the second time.
   */
  lemma MergeIdempotent(p: Project, e: SeedProject)
    ensures Merge(Merge(p, e), e) == Merge(p, e)
  {
  }

  /** Once every entry of the catalog is settled, the pass changes nothing. */
  lemma {:induction false} SettledIsFixedPoint(t: ProjectTable, c: seq<SeedProject>)
    requires forall k :: 0 <= k < |c| ==> Settled(t.rows, c[k])
    ensures Reconcile(t, c) == t
  {
    if c != [] {
      var c', e := c[..|c| - 1], c[|c| - 1];
      assert forall k :: 0 <= k < |c'| ==> c'[k] == c[k];
      SettledIsFixedPoint(t, c');
      assert Settled(t.rows, e);
      var i := FindByTitle(t.rows, e.title).value;
      assert t.rows[i := Merge(t.rows[i], e)] == t.rows;
    }
  }

  /** One iteration settles its own entry and leaves every other title's entry settled. */
  lemma ApplyEntrySettles(t: ProjectTable, e: SeedProject, f: SeedProject)
    requires WellFormedEntry(e)
    requires f.title != e.title ==> Settled(t.rows, f)
    requires f.title == e.title ==> f == e
    ensures Settled(ApplyEntry(t, e).rows, f)
  {
    var r := ApplyEntry(t, e);
    ApplyEntryFrame(t, e);
    if f.title != e.title {
      FindInExtension(t.rows, r.rows, f.title);
    } else {
      match FindByTitle(t.rows, e.title)
      case Some(i) =>
        FindInExtension(t.rows, r.rows, e.title);
        MergeIdempotent(t.rows[i], e);
      case None =>
        var j := |t.rows|;
        assert r.rows[j].title == e.title;
        assert FindByTitle(r.rows, e.title) == Some(j);
    }
  }

  /** After a pass with a well-formed catalog, every entry of the catalog is settled. */
  lemma {:induction false} ReconcileSettles(t: ProjectTable, c: seq<SeedProject>)
    requires WellFormedCatalog(c)
    ensures forall k :: 0 <= k < |c| ==> Settled(Reconcile(t, c).rows, c[k])
  {
    if c != [] {
      var c', e := c[..|c| - 1], c[|c| - 1];
      assert forall k :: 0 <= k < |c'| ==> c'[k] == c[k];
      assert WellFormedCatalog(c');
      ReconcileSettles(t, c');
      var m := Reconcile(t, c');
      forall k | 0 <= k < |c| ensures Settled(ApplyEntry(m, e).rows, c[k]) {
        ApplyEntrySettles(m, e, c[k]);
      }
    }
  }

  /**
   * Idempotence: with a well-formed catalog (non-empty descriptions and
   * tech stacks, local image paths, distinct titles), a second pass over
   * the result of a first leaves the table unchanged.
   */
  lemma ReconcileIdempotent(t: ProjectTable, c: seq<SeedProject>)
    requires WellFormedCatalog(c)
    ensures Reconcile(Reconcile(t, c), c) == Reconcile(t, c)
  {
    ReconcileSettles(t, c);
    SettledIsFixedPoint(Reconcile(t, c), c);
  }

  /** The canonical list has distinct titles, non-empty descriptions and tech stacks, and local images. */
  lemma CanonicalWellFormed()
    ensures WellFormedCatalog(CanonicalProjects)
  {
    forall k | 0 <= k < |CanonicalProjects| ensures WellFormedEntry(CanonicalProjects[k]) {
      assert CanonicalProjects[k].imageUrl[0] == 'i';
    }
  }

  /** Re-running the startup pass on its own output changes nothing. */
  lemma InitDbIdempotent(t: ProjectTable)
    ensures Reconcile(Reconcile(t, CanonicalProjects), CanonicalProjects) == Reconcile(t, CanonicalProjects)
  {
    CanonicalWellFormed();
    ReconcileIdempotent(t, CanonicalProjects);
  }

  /** On an empty table the startup pass stores the four canonical projects, in canonical order. */
  lemma InitDbOnEmptyTable(nextId: nat, clock: nat)
    ensures var r := Reconcile(ProjectTable([], nextId, clock), CanonicalProjects);
      |r.rows| == 4 && r.rows == Seeded(CanonicalProjects, nextId, clock)
  {
    CanonicalWellFormed();
    ReconcileInsertionOrder(ProjectTable([], nextId, clock), CanonicalProjects);
  }
}
