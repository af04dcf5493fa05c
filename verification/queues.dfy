/** The queue catalog behind the admin queue screens: a table of queues
    that the admin controller lists, creates, updates and deletes, keeping
    at most one queue marked as the default. */
module Queues {
  import opened Common
  import opened SqlLike
  import opened Sorting

  /** One row of the queues table (timestamps aside). */
  datatype Queue = Queue(
    id: int,
    name: string,
    slug: string,
    description: Option<string>,
    isDefault: bool,
    skillsRequired: Option<seq<int>>,
    priorityPolicy: Option<seq<string>>)

  /** The body of a store or update request, field by field. */
  datatype QueueInput = QueueInput(
    name: Input<string>,
    slug: Input<string>,
    description: Input<string>,
    isDefault: Input<bool>,
    skillsRequired: Input<seq<int>>,
    priorityPolicy: Input<seq<string>>)

  /** The request fields a validation error is reported on. The other
      fields accept null and every value of their type. */
  datatype Field = Name | Slug | SkillsRequired

  datatype QueueError = Invalid(fields: set<Field>) | NotFound | CannotDeleteDefault

  /** The `max:255` bound on names and slugs. */
  const MaxLength := 255

  // ---------------------------------------------------------------------
  // Table invariants

  predicate AtMostOneDefault(rows: seq<Queue>) {
    forall i, j :: 0 <= i < |rows| && 0 <= j < |rows| && rows[i].isDefault && rows[j].isDefault ==> i == j
  }

  predicate UniqueIds(rows: seq<Queue>) {
    forall i, j :: 0 <= i < |rows| && 0 <= j < |rows| && rows[i].id == rows[j].id ==> i == j
  }

  /** Keys are unique and below the next key to hand out; at most one
      queue is the default. */
  predicate TableValid(rows: seq<Queue>, nextId: int) {
    && 0 < nextId
    && UniqueIds(rows)
    && AtMostOneDefault(rows)
    && (forall i :: 0 <= i < |rows| ==> 0 < rows[i].id < nextId)
  }

  function KeyOf(row: Queue): int {
    row.id
  }

  /** Route-model binding: the position of the queue with key `id`. */
  function FindIndex(rows: seq<Queue>, id: int): Option<nat> {
    FindKey(rows, KeyOf, id)
  }

  // ---------------------------------------------------------------------
  // Validation

  /** Some queue other than `except` already uses `slug` (the `unique`
      rule, optionally ignoring one row). */
  predicate SlugTaken(rows: seq<Queue>, slug: string, except: Option<int>) {
    exists i | 0 <= i < |rows| :: rows[i].slug == slug && except != Some(rows[i].id)
  }

  /** The `required` rule: the field is present, not null and not blank. */
  predicate RequiredFails(x: Input<string>) {
    !x.Given? || Blank(x.value)
  }

  /** Every listed skill must be a known skill (`exists:skills,id`). */
  predicate SkillsFail(x: Input<seq<int>>, knownSkills: set<int>) {
    x.Given? && exists k | k in x.value :: k !in knownSkills
  }

  /** The rules of a store request. Rules other than `required` are
      skipped for a blank string, as the validator does. */
  function StoreErrors(rows: seq<Queue>, input: QueueInput, knownSkills: set<int>): (errs: set<Field>)
    ensures errs == {} ==> input.name.Given? && !Blank(input.name.value)
  {
    (if RequiredFails(input.name) || |input.name.value| > MaxLength then {Name} else {})
    + (if input.slug.Given? && !Blank(input.slug.value)
          && (|input.slug.value| > MaxLength || SlugTaken(rows, input.slug.value, None))
       then {Slug} else {})
    + (if SkillsFail(input.skillsRequired, knownSkills) then {SkillsRequired} else {})
  }

  /** `sometimes|required|max:255` and unique among the queues other than `id`. */
  predicate UpdateSlugFails(rows: seq<Queue>, id: int, slug: Input<string>) {
    slug != Absent
    && (RequiredFails(slug) || |slug.value| > MaxLength || SlugTaken(rows, slug.value, Some(id)))
  }

  /** The rules of an update request on the queue with key `id`: name and
      slug are `sometimes|required`, and the slug must be unique among the
      other queues. */
  function UpdateErrors(rows: seq<Queue>, id: int, input: QueueInput, knownSkills: set<int>): set<Field>
  {
    (if input.name != Absent && (RequiredFails(input.name) || |input.name.value| > MaxLength)
     then {Name} else {})
    + (if UpdateSlugFails(rows, id, input.slug) then {Slug} else {})
    + (if SkillsFail(input.skillsRequired, knownSkills) then {SkillsRequired} else {})
  }

  // ---------------------------------------------------------------------
  // The table after each operation

  /** The bulk update that unsets `is_default` on every queue except `keep`. */
  function ClearDefaults(rows: seq<Queue>, keep: Option<int>): (r: seq<Queue>)
    ensures |r| == |rows|
    ensures forall i :: 0 <= i < |r| ==> r[i].isDefault ==> keep == Some(r[i].id)
    ensures forall i :: 0 <= i < |r| ==> r[i] == rows[i].(isDefault := r[i].isDefault)
    ensures forall i :: 0 <= i < |r| && keep == Some(rows[i].id) ==> r[i] == rows[i]
  {
    seq(|rows|, i requires 0 <= i < |rows| =>
      if rows[i].isDefault && keep != Some(rows[i].id) then rows[i].(isDefault := false) else rows[i])
  }

  /** The queue a valid store request creates under key `id`; `slugify`
      stands for the framework's slug helper. */
  function Created(id: int, input: QueueInput, slugify: string -> string): Queue
    requires input.name.Given?
  {
    Queue(
      id,
      input.name.value,
      input.slug.OrElse(slugify(input.name.value)),
      input.description.ToOption(),
      input.isDefault.OrElse(false),
      input.skillsRequired.ToOption(),
      input.priorityPolicy.ToOption())
  }

  function StoredRows(rows: seq<Queue>, id: int, input: QueueInput, slugify: string -> string): seq<Queue>
    requires input.name.Given?
  {
    (if input.isDefault == Given(true) then ClearDefaults(rows, None) else rows)
    + [Created(id, input, slugify)]
  }

  /** `q` with every field whose validated input is set (`isset`: given
      and not null) replaced by that input. */
  function Patched(q: Queue, input: QueueInput): Queue {
    q.(
      name := input.name.OrElse(q.name),
      slug := input.slug.OrElse(q.slug),
      description := if input.description.Given? then Some(input.description.value) else q.description,
      isDefault := input.isDefault.OrElse(q.isDefault),
      skillsRequired := if input.skillsRequired.Given? then Some(input.skillsRequired.value) else q.skillsRequired,
      priorityPolicy := if input.priorityPolicy.Given? then Some(input.priorityPolicy.value) else q.priorityPolicy)
  }

  function UpdatedRows(rows: seq<Queue>, i: nat, input: QueueInput): seq<Queue>
    requires i < |rows|
  {
    var cleared := if input.isDefault == Given(true) then ClearDefaults(rows, Some(rows[i].id)) else rows;
    cleared[i := Patched(rows[i], input)]
  }

  function Removed(rows: seq<Queue>, i: nat): seq<Queue>
    requires i < |rows|
  {
    rows[..i] + rows[i + 1..]
  }

  // ---------------------------------------------------------------------
  // The controller over its table

  class QueueCatalog {
    var rows: seq<Queue>
    var nextId: int

    ghost predicate Valid()
      reads this
    {
      TableValid(rows, nextId)
    }

    constructor ()
      ensures Valid() && rows == [] && nextId == 1
    {
      rows := [];
      nextId := 1;
    }

    /** `store`: validate, clear every default when the new queue is the
        default, then create the queue under the next key. */
    method Store(input: QueueInput, knownSkills: set<int>, slugify: string -> string)
      returns (r: Result<Queue, QueueError>)
      requires Valid()
      modifies this
      ensures Valid()
      ensures StoreErrors(old(rows), input, knownSkills) != {} ==>
                && r == Failure(Invalid(StoreErrors(old(rows), input, knownSkills)))
                && rows == old(rows) && nextId == old(nextId)
      ensures StoreErrors(old(rows), input, knownSkills) == {} ==>
                && r == Success(Created(old(nextId), input, slugify))
                && rows == StoredRows(old(rows), old(nextId), input, slugify)
                && nextId == old(nextId) + 1
    {
      var errs := StoreErrors(rows, input, knownSkills);
      if errs != {} {
        return Failure(Invalid(errs));
      }
      StoreKeepsTableValid(rows, nextId, input, slugify);
      if input.isDefault == Given(true) {
        rows := ClearDefaults(rows, None);
      }
      var queue := Created(nextId, input, slugify);
      rows := rows + [queue];
      nextId := nextId + 1;
      r := Success(queue);
    }

    /** `update`: find the queue, validate, clear the other defaults when
        it becomes the default, then assign each set field and save. */
    method Update(id: int, input: QueueInput, knownSkills: set<int>)
      returns (r: Result<Queue, QueueError>)
      requires Valid()
      modifies this
      ensures Valid() && nextId == old(nextId)
      ensures FindIndex(old(rows), id).None? ==> r == Failure(NotFound) && rows == old(rows)
      ensures FindIndex(old(rows), id).Some? && UpdateErrors(old(rows), id, input, knownSkills) != {} ==>
                && r == Failure(Invalid(UpdateErrors(old(rows), id, input, knownSkills)))
                && rows == old(rows)
      ensures FindIndex(old(rows), id).Some? && UpdateErrors(old(rows), id, input, knownSkills) == {} ==>
                var i := FindIndex(old(rows), id).value;
                && rows == UpdatedRows(old(rows), i, input)
                && r == Success(rows[i])
    {
      var found := FindIndex(rows, id);
      if found.None? {
        return Failure(NotFound);
      }
      var i := found.value;
      var errs := UpdateErrors(rows, id, input, knownSkills);
      if errs != {} {
        return Failure(Invalid(errs));
      }
      ghost var before := rows;
      UpdatePreservesAtMostOneDefault(rows, i, input);
      UpdateKeepsIds(rows, i, input);
      var queue := rows[i];
      if input.isDefault == Given(true) {
        rows := ClearDefaults(rows, Some(id));
      }
      if input.name.Given? {
        queue := queue.(name := input.name.value);
      }
      if input.slug.Given? {
        queue := queue.(slug := input.slug.value);
      }
      if input.description.Given? {
        queue := queue.(description := Some(input.description.value));
      }
      if input.isDefault.Given? {
        queue := queue.(isDefault := input.isDefault.value);
      }
      if input.skillsRequired.Given? {
        queue := queue.(skillsRequired := Some(input.skillsRequired.value));
      }
      if input.priorityPolicy.Given? {
        queue := queue.(priorityPolicy := Some(input.priorityPolicy.value));
      }
      rows := rows[i := queue];
      assert queue == Patched(before[i], input);
      r := Success(queue);
    }

    /** `destroy`: refuse to delete the default queue, delete any other. */
    method Destroy(id: int) returns (r: Result<(), QueueError>)
      requires Valid()
      modifies this
      ensures Valid() && nextId == old(nextId)
      ensures FindIndex(old(rows), id).None? ==> r == Failure(NotFound) && rows == old(rows)
      ensures FindIndex(old(rows), id).Some? ==>
                var i := FindIndex(old(rows), id).value;
                if old(rows)[i].isDefault then r == Failure(CannotDeleteDefault) && rows == old(rows)
                else r == Success(()) && rows == Removed(old(rows), i)
    {
      var found := FindIndex(rows, id);
      if found.None? {
        return Failure(NotFound);
      }
      var i := found.value;
      if rows[i].isDefault {
        return Failure(CannotDeleteDefault);
      }
      DestroyRemovesExactlyOne(rows, i);
      rows := rows[..i] + rows[i + 1..];
      r := Success(());
    }
  }

  // ---------------------------------------------------------------------
  // The single-default rule

  lemma StorePreservesAtMostOneDefault(rows: seq<Queue>, id: int, input: QueueInput, slugify: string -> string)
    requires input.name.Given? && AtMostOneDefault(rows)
    ensures AtMostOneDefault(StoredRows(rows, id, input, slugify))
  {
    var r := StoredRows(rows, id, input, slugify);
    if input.isDefault == Given(true) {
      forall i | 0 <= i < |r| - 1 ensures !r[i].isDefault {
        assert r[i] == ClearDefaults(rows, None)[i];
      }
    } else {
      assert !r[|r| - 1].isDefault;
      assert r[..|rows|] == rows;
    }
  }

  lemma StoreKeepsIds(rows: seq<Queue>, id: int, input: QueueInput, slugify: string -> string)
    requires input.name.Given?
    ensures var r := StoredRows(rows, id, input, slugify);
            && |r| == |rows| + 1 && r[|rows|].id == id
            && forall j :: 0 <= j < |rows| ==> r[j].id == rows[j].id
  {
  }

  lemma StoreKeepsTableValid(rows: seq<Queue>, nextId: int, input: QueueInput, slugify: string -> string)
    requires input.name.Given? && TableValid(rows, nextId)
    ensures TableValid(StoredRows(rows, nextId, input, slugify), nextId + 1)
  {
    StorePreservesAtMostOneDefault(rows, nextId, input, slugify);
    StoreKeepsIds(rows, nextId, input, slugify);
    var r := StoredRows(rows, nextId, input, slugify);
    forall i | 0 <= i < |r| ensures 0 < r[i].id < nextId + 1 {
      if i < |rows| { assert r[i].id == rows[i].id; }
    }
  }

  /** Storing a default queue leaves it the only default. */
  lemma StoreDefaultIsSoleDefault(rows: seq<Queue>, id: int, input: QueueInput, slugify: string -> string)
    requires input.name.Given? && input.isDefault == Given(true)
    ensures var r := StoredRows(rows, id, input, slugify);
            && |r| == |rows| + 1
            && r[|rows|].isDefault && r[|rows|].id == id
            && forall i :: 0 <= i < |rows| ==> !r[i].isDefault && r[i] == rows[i].(isDefault := false)
  {
    var r := StoredRows(rows, id, input, slugify);
    forall i | 0 <= i < |rows| ensures !r[i].isDefault && r[i] == rows[i].(isDefault := false) {
      assert r[i] == ClearDefaults(rows, None)[i];
    }
  }

  /** A store request without `is_default` leaves every existing queue as
      it was and adds a queue that is not the default; without a slug it
      takes the slug of its name. */
  lemma StoreDefaultsAndDerivedSlug(rows: seq<Queue>, id: int, input: QueueInput, slugify: string -> string)
    requires input.name.Given?
    ensures var q := Created(id, input, slugify);
            && q.name == input.name.value
            && (!input.isDefault.Given? ==> !q.isDefault && StoredRows(rows, id, input, slugify) == rows + [q])
            && (!input.slug.Given? ==> q.slug == slugify(input.name.value))
            && (input.slug.Given? ==> q.slug == input.slug.value)
  {
  }

  lemma StoreRejectsMissingNameOrTakenSlug(rows: seq<Queue>, input: QueueInput, knownSkills: set<int>)
    ensures !input.name.Given? ==> Name in StoreErrors(rows, input, knownSkills)
    ensures input.slug.Given? && !Blank(input.slug.value) && SlugTaken(rows, input.slug.value, None) ==>
              Slug in StoreErrors(rows, input, knownSkills)
  {
  }

  /** The derived slug is not checked: a store request without a slug,
      whose name slugs to a slug already in use, is accepted and adds a
      second queue with that slug. */
  lemma DerivedSlugMayDuplicate(rows: seq<Queue>, name: string, k: nat, slugify: string -> string)
    requires !Blank(name) && |name| <= MaxLength
    requires k < |rows| && rows[k].slug == slugify(name)
    ensures var input := QueueInput(Given(name), Absent, Absent, Absent, Absent, Absent);
            var r := StoredRows(rows, 0, input, slugify);
            && StoreErrors(rows, input, {}) == {}
            && r[|rows|].slug == r[k].slug
  {
  }

  lemma UpdatePreservesAtMostOneDefault(rows: seq<Queue>, i: nat, input: QueueInput)
    requires i < |rows| && UniqueIds(rows) && AtMostOneDefault(rows)
    ensures AtMostOneDefault(UpdatedRows(rows, i, input))
  {
    var r := UpdatedRows(rows, i, input);
    if input.isDefault == Given(true) {
      var cleared := ClearDefaults(rows, Some(rows[i].id));
      forall j | 0 <= j < |r| && j != i ensures !r[j].isDefault {
        assert r[j] == cleared[j];
      }
    } else if input.isDefault == Given(false) {
      assert !r[i].isDefault;
      forall j | 0 <= j < |r| && j != i ensures r[j] == rows[j] { }
    } else {
      assert r[i].isDefault == rows[i].isDefault;
      forall j | 0 <= j < |r| && j != i ensures r[j] == rows[j] { }
    }
  }

  lemma UpdateKeepsIds(rows: seq<Queue>, i: nat, input: QueueInput)
    requires i < |rows|
    ensures var r := UpdatedRows(rows, i, input);
            |r| == |rows| && forall j :: 0 <= j < |r| ==> r[j].id == rows[j].id
  {
  }

  /** Making a queue the default unsets every other default and sets its own. */
  lemma UpdateToDefaultIsSoleDefault(rows: seq<Queue>, i: nat, input: QueueInput)
    requires i < |rows| && UniqueIds(rows) && input.isDefault == Given(true)
    ensures var r := UpdatedRows(rows, i, input);
            && r[i].isDefault
            && forall j :: 0 <= j < |r| && j != i ==> !r[j].isDefault
  {
    var r := UpdatedRows(rows, i, input);
    var cleared := ClearDefaults(rows, Some(rows[i].id));
    forall j | 0 <= j < |r| && j != i ensures !r[j].isDefault {
      assert r[j] == cleared[j];
    }
  }

  /** An update sets exactly the fields whose input is set; every other
      queue is untouched except that it may lose the default flag, and only
      when the target becomes the default. */
  lemma UpdateChangesOnlySetFields(rows: seq<Queue>, i: nat, input: QueueInput)
    requires i < |rows| && UniqueIds(rows)
    ensures var r := UpdatedRows(rows, i, input);
            && |r| == |rows|
            && r[i].id == rows[i].id
            && r[i].name == (if input.name.Given? then input.name.value else rows[i].name)
            && r[i].slug == (if input.slug.Given? then input.slug.value else rows[i].slug)
            && r[i].description == (if input.description.Given? then Some(input.description.value) else rows[i].description)
            && r[i].isDefault == (if input.isDefault.Given? then input.isDefault.value else rows[i].isDefault)
            && r[i].skillsRequired == (if input.skillsRequired.Given? then Some(input.skillsRequired.value) else rows[i].skillsRequired)
            && r[i].priorityPolicy == (if input.priorityPolicy.Given? then Some(input.priorityPolicy.value) else rows[i].priorityPolicy)
            && forall j :: 0 <= j < |r| && j != i ==>
                 if input.isDefault == Given(true) then r[j] == rows[j].(isDefault := false)
                 else r[j] == rows[j]
  {
    var r := UpdatedRows(rows, i, input);
    if input.isDefault == Given(true) {
      var cleared := ClearDefaults(rows, Some(rows[i].id));
      forall j | 0 <= j < |r| && j != i ensures r[j] == rows[j].(isDefault := false) {
        assert r[j] == cleared[j];
      }
    }
  }

  /** Exactly one default is not promised: turning off the only default
      leaves the table with none. */
  lemma UpdateMayLeaveNoDefault()
    ensures var rows := [Queue(1, "General", "general", None, true, None, None)];
            var input := QueueInput(Absent, Absent, Absent, Given(false), Absent, Absent);
            && UpdateErrors(rows, 1, input, {}) == {}
            && forall j :: 0 <= j < |UpdatedRows(rows, 0, input)| ==> !UpdatedRows(rows, 0, input)[j].isDefault
  {
  }

  /** Turning off the sole default, in any table, leaves the table with
      no default at all. */
  lemma TurningOffSoleDefaultLeavesNone(rows: seq<Queue>, i: nat, input: QueueInput)
    requires i < |rows| && rows[i].isDefault
    requires forall j :: 0 <= j < |rows| && j != i ==> !rows[j].isDefault
    requires input.isDefault == Given(false)
    ensures forall j :: 0 <= j < |UpdatedRows(rows, i, input)| ==> !UpdatedRows(rows, i, input)[j].isDefault
  {
  }

  /** Keeping its own slug is accepted unless another queue shares it; a
      slug another queue uses is refused. */
  lemma UpdateSlugRules(rows: seq<Queue>, i: nat, input: QueueInput, knownSkills: set<int>)
    requires i < |rows| && UniqueIds(rows)
    requires input.slug.Given?
    ensures input.slug.value == rows[i].slug && !Blank(rows[i].slug) && |rows[i].slug| <= MaxLength
            && (forall j :: 0 <= j < |rows| && j != i ==> rows[j].slug != rows[i].slug)
            ==> Slug !in UpdateErrors(rows, rows[i].id, input, knownSkills)
    ensures (exists j :: 0 <= j < |rows| && j != i && rows[j].slug == input.slug.value)
            ==> Slug in UpdateErrors(rows, rows[i].id, input, knownSkills)
  {
    var slug := input.slug.value;
    var id := rows[i].id;
    assert Slug in UpdateErrors(rows, id, input, knownSkills) <==> UpdateSlugFails(rows, id, input.slug);
    if slug == rows[i].slug && (forall j :: 0 <= j < |rows| && j != i ==> rows[j].slug != rows[i].slug) {
      forall k | 0 <= k < |rows| && rows[k].slug == slug ensures Some(id) == Some(rows[k].id) {
        assert k == i;
      }
      assert !SlugTaken(rows, slug, Some(id));
    }
    if j :| 0 <= j < |rows| && j != i && rows[j].slug == slug {
      assert rows[j].id != id;
      assert SlugTaken(rows, slug, Some(id));
    }
  }

  /** Deleting a non-default queue removes exactly that queue and keeps the
      others in order. */
  lemma DestroyRemovesExactlyOne(rows: seq<Queue>, i: nat)
    requires i < |rows| && UniqueIds(rows) && AtMostOneDefault(rows)
    ensures var r := Removed(rows, i);
            && |r| == |rows| - 1
            && (forall j :: 0 <= j < |r| ==> r[j].id != rows[i].id)
            && (forall j :: 0 <= j < |rows| && j != i ==> rows[j] in r)
            && UniqueIds(r) && AtMostOneDefault(r)
  {
    var r := Removed(rows, i);
    assert forall j :: 0 <= j < |r| ==> r[j] == (if j < i then rows[j] else rows[j + 1]);
    forall j | 0 <= j < |rows| && j != i ensures rows[j] in r {
      if j < i { assert r[j] == rows[j]; } else { assert r[j - 1] == rows[j]; }
    }
  }

  // ---------------------------------------------------------------------
  // Listings

  /** The order of `orderBy('name')`: lexicographic by character code. */
  predicate NameLe(a: string, b: string)
    decreases |a|
  {
    a == [] || (b != [] && (a[0] < b[0] || (a[0] == b[0] && NameLe(a[1..], b[1..]))))
  }

  lemma {:induction false} NameLeTotal(a: string, b: string)
    ensures NameLe(a, b) || NameLe(b, a)
    decreases |a|
  {
    if a != [] && b != [] && a[0] == b[0] {
      NameLeTotal(a[1..], b[1..]);
    }
  }

  lemma {:induction false} NameLeTransitive(a: string, b: string, c: string)
    requires NameLe(a, b) && NameLe(b, c)
    ensures NameLe(a, c)
    decreases |a|
  {
    if a != [] && b != [] && c != [] && a[0] == b[0] && b[0] == c[0] {
      NameLeTransitive(a[1..], b[1..], c[1..]);
    }
  }

  predicate ByName(a: Queue, b: Queue) {
    NameLe(a.name, b.name)
  }

  lemma ByNameIsTotalPreorder()
    ensures TotalPreorder(ByName)
  {
    forall a: Queue, b: Queue ensures ByName(a, b) || ByName(b, a) {
      NameLeTotal(a.name, b.name);
    }
    forall a: Queue, b: Queue, c: Queue | ByName(a, b) && ByName(b, c) ensures ByName(a, c) {
      NameLeTransitive(a.name, b.name, c.name);
    }
  }

  /** PHP truthiness of the raw search parameter: null, "" and "0" are false. */
  predicate SearchApplies(search: Input<string>) {
    search.Given? && !PhpEmpty(search.value)
  }

  predicate MatchesSearch(q: Queue, search: Input<string>) {
    !SearchApplies(search)
    || Like(q.name, Wrapped(search.value))
    || Like(q.slug, Wrapped(search.value))
  }

  /** `index`: the queues whose name or slug is LIKE `%search%` (all of
      them when the search is falsy), ordered by name. */
  function Index(rows: seq<Queue>, search: Input<string>): (r: seq<Queue>)
    ensures SortedBy(r, ByName)
    ensures forall q :: multiset(r)[q] == if MatchesSearch(q, search) then multiset(rows)[q] else 0
  {
    ByNameIsTotalPreorder();
    SortBy(Filter(rows, q => MatchesSearch(q, search)), ByName)
  }

  /** `all`: every queue, ordered by name. */
  function All(rows: seq<Queue>): (r: seq<Queue>)
    ensures SortedBy(r, ByName) && multiset(r) == multiset(rows)
  {
    ByNameIsTotalPreorder();
    SortBy(rows, ByName)
  }

  /** With a search term free of `%`, `_` and `\`, the listing holds exactly
      the queues whose name or slug contains it. */
  lemma IndexPlainSearch(rows: seq<Queue>, s: string)
    requires !PhpEmpty(s)
    requires forall i :: 0 <= i < |s| ==> !IsWildcard(s[i]) && s[i] != '\\'
    ensures forall q :: q in Index(rows, Given(s)) <==>
              q in rows && (Contains(q.name, s) || Contains(q.slug, s))
  {
    var r := Index(rows, Given(s));
    forall q ensures q in r <==> q in rows && (Contains(q.name, s) || Contains(q.slug, s)) {
      RawPlainSearchIsSubstring(q.name, s);
      RawPlainSearchIsSubstring(q.slug, s);
      assert q in r <==> multiset(r)[q] > 0;
      assert q in rows <==> multiset(rows)[q] > 0;
    }
  }

  /** A falsy search lists every queue. */
  lemma IndexWithoutSearch(rows: seq<Queue>, search: Input<string>)
    requires !SearchApplies(search)
    ensures multiset(Index(rows, search)) == multiset(rows)
  {
    var r := Index(rows, search);
    assert forall q :: multiset(r)[q] == multiset(rows)[q];
  }
}
