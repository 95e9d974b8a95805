/**
 * The application's storage: both tables, the ids the storage hands out
 * next, and the clock that stamps every insert. The methods are the
 * startup pass and the route handlers that touch storage.
 */
module App {
  import opened Wrappers
  import opened Models
  import opened Seed
  import opened Admission
  import opened Listing

  /** The notice a contact submission is answered with. */
  datatype Notice = Sent | FillInAllFields

  class Database {
    var projects: seq<Project>
    var nextProjectId: nat
    var messages: seq<Message>
    var nextMessageId: nat
    var clock: nat

    /** The `projects` table as a value, with its next id and the clock. */
    function ProjectState(): ProjectTable
      reads this
    {
      ProjectTable(projects, nextProjectId, clock)
    }

    /** Both tables are append-only: ids and creation times increase in table order. */
    ghost predicate Valid()
      reads this
    {
      ValidTable(ProjectState()) &&
      InsertionOrdered(messages, MessageId, MessageCreatedAt, nextMessageId, clock)
    }

    /** An empty store (`create_all` on a fresh database). */
    constructor ()
      ensures Valid()
      ensures projects == [] && messages == []
    {
      projects, nextProjectId := [], 0;
      messages, nextMessageId := [], 0;
      clock := 0;
    }

    /**
     * The startup pass over the canonical list, committed once: its result
     * is `Reconcile` of the old table, which keeps the table append-only.
     */
    method InitDb()
      requires Valid()
      modifies this
      ensures Valid()
      ensures ProjectState() == Reconcile(old(ProjectState()), CanonicalProjects)
      ensures messages == old(messages) && nextMessageId == old(nextMessageId)
    {
      SeedCatalog(CanonicalProjects);
    }

    /**
     * The loop of the startup pass: for each entry of `catalog`, in order,
     * update the first row with its title by the merge rules, or append a
     * new row. Rows appended by earlier entries are visible to later ones.
     */
    method SeedCatalog(catalog: seq<SeedProject>)
      requires Valid()
      modifies this
      ensures Valid()
      ensures ProjectState() == Reconcile(old(ProjectState()), catalog)
      ensures messages == old(messages) && nextMessageId == old(nextMessageId) && old(clock) <= clock
    {
      for n := 0 to |catalog|
        invariant ProjectState() == Reconcile(old(ProjectState()), catalog[..n])
        invariant messages == old(messages) && nextMessageId == old(nextMessageId) && old(clock) <= clock
        invariant Valid()
      {
        assert catalog[..n + 1][..n] == catalog[..n];
        SeedOne(catalog[n]);
      }
      assert catalog[..|catalog|] == catalog;
    }

    /**
     * One iteration of the startup pass: the first row titled like `data`
     * has its blank fields filled, its stale image replaced and its links
     * overwritten; with no such row, a new one is appended.
     */
    method SeedOne(data: SeedProject)
      requires Valid()
      modifies this
      ensures Valid()
      ensures ProjectState() == ApplyEntry(old(ProjectState()), data)
      ensures messages == old(messages) && nextMessageId == old(nextMessageId) && old(clock) <= clock
    {
      ApplyEntryPreservesValid(ProjectState(), data);
      var existing := FindByTitle(projects, data.title);
      match existing
      case Some(i) =>
        var row := projects[i];
        if row.description == "" {
          row := row.(description := data.description);
        }
        if IsBlank(row.techStack) {
          row := row.(techStack := Some(data.techStack));
        }
        if NeedsCanonicalImage(row.imageUrl) {
          row := row.(imageUrl := Some(data.imageUrl));
        }
        row := row.(projectUrl := Some(data.projectUrl), githubUrl := Some(data.githubUrl));
        projects := projects[i := row];
      case None =>
        InsertionOrderedLater(messages, MessageId, MessageCreatedAt, nextMessageId, clock, clock + 1);
        projects := projects + [NewRow(data, nextProjectId, clock)];
        nextProjectId := nextProjectId + 1;
        clock := clock + 1;
    }

    /**
     * The contact form: a submission whose stripped name, email or message
     * is empty stores nothing; otherwise exactly one row with the stripped
     * values is appended. The invariant makes its timestamp later than
     * every earlier message's.
     */
    method Contact(name: Option<string>, email: Option<string>, text: Option<string>) returns (notice: Notice)
      requires Valid()
      modifies this
      ensures Valid()
      ensures var v := Admit(name, email, text);
        notice == (if v.Accepted? then Sent else FillInAllFields) &&
        (v.Rejected? ==>
          messages == old(messages) && nextMessageId == old(nextMessageId) && clock == old(clock)) &&
        (v.Accepted? ==>
          messages == old(messages) + [Message(old(nextMessageId), v.name, v.email, v.text, old(clock))] &&
          nextMessageId == old(nextMessageId) + 1 && clock == old(clock) + 1)
      ensures projects == old(projects) && nextProjectId == old(nextProjectId)
    {
      notice := Record(Admit(name, email, text));
    }

    /** Stores an admitted submission as one new message (one commit); a rejected one stores nothing. */
    method Record(v: Submission) returns (notice: Notice)
      requires Valid()
      modifies this
      ensures Valid()
      ensures notice == (if v.Accepted? then Sent else FillInAllFields)
      ensures v.Rejected? ==>
        messages == old(messages) && nextMessageId == old(nextMessageId) && clock == old(clock)
      ensures v.Accepted? ==>
        messages == old(messages) + [Message(old(nextMessageId), v.name, v.email, v.text, old(clock))] &&
        nextMessageId == old(nextMessageId) + 1 && clock == old(clock) + 1
      ensures projects == old(projects) && nextProjectId == old(nextProjectId)
    {
      if v.Rejected? {
        notice := FillInAllFields;
      } else {
        var row := Message(nextMessageId, v.name, v.email, v.text, clock);
        InsertionOrderedAppend(messages, MessageId, MessageCreatedAt, nextMessageId, clock, row);
        InsertionOrderedLater(projects, ProjectId, ProjectCreatedAt, nextProjectId, clock, clock + 1);
        messages := messages + [row];
        nextMessageId := nextMessageId + 1;
        clock := clock + 1;
        notice := Sent;
      }
    }

    /** The project listing: every row, newest first, which is the table reversed. */
    method Home() returns (r: seq<Project>)
      requires Valid()
      ensures SortedDesc(r, ProjectCreatedAt) && multiset(r) == multiset(projects)
      ensures |r| == |projects| && forall i :: 0 <= i < |r| ==> r[i] == projects[|projects| - 1 - i]
    {
      r := NewestFirst(projects, ProjectCreatedAt);
      NewestFirstSorted(projects, ProjectCreatedAt);
      NewestFirstReverses(projects, ProjectCreatedAt);
    }

    /** The message listing: every message, newest first, which is the table reversed. */
    method AdminMessages() returns (r: seq<Message>)
      requires Valid()
      ensures SortedDesc(r, MessageCreatedAt) && multiset(r) == multiset(messages)
      ensures |r| == |messages| && forall i :: 0 <= i < |r| ==> r[i] == messages[|messages| - 1 - i]
    {
      r := NewestFirst(messages, MessageCreatedAt);
      NewestFirstSorted(messages, MessageCreatedAt);
      NewestFirstReverses(messages, MessageCreatedAt);
    }

    /** The JSON listing: the messages newest first, with their total count. */
    method ApiMessages() returns (r: seq<Message>, total: nat)
      requires Valid()
      ensures SortedDesc(r, MessageCreatedAt) && multiset(r) == multiset(messages)
      ensures total == |r| == |messages|
    {
      r := AdminMessages();
      total := |r|;
    }
  }
}
