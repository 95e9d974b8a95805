/** The two persisted entities: rows of the `projects` and `messages` tables. */
module Models {
  import opened Wrappers

  /**
   * A row of `projects`. `description` is a NOT NULL column, so it is a plain
   * string; the other text columns are nullable. `createdAt` is the value of
   * an abstract clock that only moves forward.
   */
  datatype Project = Project(
    id: nat,
    title: string,
    description: string,
    techStack: Option<string>,
    imageUrl: Option<string>,
    projectUrl: Option<string>,
    githubUrl: Option<string>,
    createdAt: nat)

  /** A row of `messages`: one contact submission. */
  datatype Message = Message(id: nat, name: string, email: string, text: string, createdAt: nat)

  function ProjectId(p: Project): int { p.id }
  function ProjectCreatedAt(p: Project): int { p.createdAt }
  function MessageId(m: Message): int { m.id }
  function MessageCreatedAt(m: Message): int { m.createdAt }

  /**
   * The invariant of an append-only table: in table order, ids and creation
   * times strictly increase, and all lie below the next id and the clock.
   */
  predicate InsertionOrdered<T>(rows: seq<T>, id: T -> int, at: T -> int, nextId: int, clock: int)
  {
    (forall i :: 0 <= i < |rows| ==> id(rows[i]) < nextId && at(rows[i]) < clock) &&
    (forall i, j :: 0 <= i < j < |rows| ==> id(rows[i]) < id(rows[j]) && at(rows[i]) < at(rows[j]))
  }

  /** Appending a row stamped with the next id and the clock keeps the invariant, one tick later. */
  lemma InsertionOrderedAppend<T>(rows: seq<T>, id: T -> int, at: T -> int, nextId: int, clock: int, x: T)
    requires InsertionOrdered(rows, id, at, nextId, clock)
    requires id(x) == nextId && at(x) == clock
    ensures InsertionOrdered(rows + [x], id, at, nextId + 1, clock + 1)
  {
    var s := rows + [x];
    assert forall i :: 0 <= i < |rows| ==> s[i] == rows[i];
  }

  /** The invariant survives the clock moving forward. */
  lemma InsertionOrderedLater<T>(rows: seq<T>, id: T -> int, at: T -> int, nextId: int, clock: int, clock': int)
    requires InsertionOrdered(rows, id, at, nextId, clock) && clock <= clock'
    ensures InsertionOrdered(rows, id, at, nextId, clock')
  {
  }
}
