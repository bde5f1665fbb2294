/** The task list of the to-do screen as a value, and the list
    transformations the screen's handlers apply to it: adding with
    validation, deleting by id, marking completed, and searching by title. */
module Tasks {
  import opened Text
  import opened Sequences

  /** A JavaScript number. Ids are compared only for equality. */
  type TaskId = real

  /** One to-do entry. The title field is called `title1` in the app. */
  datatype Task = Task(id: TaskId, title1: string, desc: string, completed: bool)

  /** The built-in entry the list starts with. */
  const SeedTask := Task(1.0, "First TODO", "Hello", false)

  /** The only way adding can fail: an empty title or description. */
  datatype AddError = EmptyTask

  datatype Result<+T, +E> = Ok(value: T) | Err(error: E)

  /** No two entries share an id. Nothing in the app enforces this. */
  ghost predicate UniqueIds(tasks: seq<Task>) {
    forall i, j :: 0 <= i < j < |tasks| ==> tasks[i].id != tasks[j].id
  }

  /** The seed entry is uncompleted, has a non-empty title and description,
      and is exactly what adding "First TODO" / "Hello" with the seed's id to
      an empty list produces. */
  lemma SeedIsAddable()
    ensures !SeedTask.completed && SeedTask.title1 != "" && SeedTask.desc != ""
    ensures Add([], SeedTask.title1, SeedTask.desc, SeedTask.id) == Ok([SeedTask])
  {
    assert SeedTask.title1 != "" && SeedTask.desc != "";
  }

  /// Adding

  /** Validates the form fields and appends a new, uncompleted entry. */
  function Add(tasks: seq<Task>, title: string, description: string, id: TaskId): (r: Result<seq<Task>, AddError>)
    ensures r.Err? <==> title == "" || description == ""
    ensures r.Ok? ==> |r.value| == |tasks| + 1 && r.value[..|tasks|] == tasks
    ensures r.Ok? ==> r.value[|tasks|] == Task(id, title, description, false)
  {
    if title == "" || description == "" then Err(EmptyTask)
    else Ok(tasks + [Task(id, title, description, false)])
  }

  /** An id that no entry has yet keeps the ids unique. */
  lemma AddKeepsUniqueIds(tasks: seq<Task>, title: string, description: string, id: TaskId)
    requires UniqueIds(tasks)
    requires forall t :: t in tasks ==> t.id != id
    ensures Add(tasks, title, description, id).Ok? ==> UniqueIds(Add(tasks, title, description, id).value)
  {
    if Add(tasks, title, description, id).Ok? {
      var r := Add(tasks, title, description, id).value;
      forall i, j | 0 <= i < j < |r|
        ensures r[i].id != r[j].id
      {
        assert r[i] == tasks[i];
        if j == |tasks| {
          assert r[i] in tasks;
        } else {
          assert r[j] == tasks[j];
        }
      }
    }
  }

  /// Deleting

  /** Keeps every entry whose id differs from `taskId`. */
  function Delete(tasks: seq<Task>, taskId: TaskId): (r: seq<Task>)
    ensures forall t :: multiset(r)[t] == if t.id == taskId then 0 else multiset(tasks)[t]
    ensures forall t :: t in r <==> t in tasks && t.id != taskId
  {
    Filter((t: Task) => t.id != taskId, tasks)
  }

  /** Deleting keeps the surviving entries in their original order. */
  lemma DeleteIsSubsequence(tasks: seq<Task>, taskId: TaskId)
    ensures IsSubsequence(Delete(tasks, taskId), tasks)
  {
    FilterIsSubsequence((t: Task) => t.id != taskId, tasks);
  }

  /** Deleting an id that no entry has leaves the list as it was. */
  lemma DeleteAbsentIsNoOp(tasks: seq<Task>, taskId: TaskId)
    requires forall t :: t in tasks ==> t.id != taskId
    ensures Delete(tasks, taskId) == tasks
  {
    FilterKeepsAll((t: Task) => t.id != taskId, tasks);
  }

  /** Ids are unique in a non-empty list exactly when they are unique in
      its tail and the head's id occurs nowhere in the tail. */
  lemma UniqueIdsCons(tasks: seq<Task>)
    requires tasks != []
    ensures UniqueIds(tasks) <==>
      UniqueIds(tasks[1..]) && forall t :: t in tasks[1..] ==> t.id != tasks[0].id
  {
    var tail := tasks[1..];
    if UniqueIds(tasks) {
      forall i, j | 0 <= i < j < |tail|
        ensures tail[i].id != tail[j].id
      {
        assert tail[i] == tasks[i + 1] && tail[j] == tasks[j + 1];
      }
    }
    if UniqueIds(tail) && forall t :: t in tail ==> t.id != tasks[0].id {
      forall i, j | 0 <= i < j < |tasks|
        ensures tasks[i].id != tasks[j].id
      {
        assert tasks[j] == tail[j - 1];
        if i > 0 {
          assert tasks[i] == tail[i - 1];
        }
      }
    }
  }

  /** Deleting keeps the ids unique. */
  lemma {:induction false} DeleteKeepsUniqueIds(tasks: seq<Task>, taskId: TaskId)
    requires UniqueIds(tasks)
    ensures UniqueIds(Delete(tasks, taskId))
  {
    if tasks != [] {
      UniqueIdsCons(tasks);
      DeleteKeepsUniqueIds(tasks[1..], taskId);
      var r := Delete(tasks, taskId);
      if tasks[0].id != taskId {
        assert r == [tasks[0]] + Delete(tasks[1..], taskId);
        assert r[1..] == Delete(tasks[1..], taskId);
        UniqueIdsCons(r);
      } else {
        assert r == Delete(tasks[1..], taskId);
      }
    }
  }

  /// Marking completed

  /** Sets `completed` on every entry whose id is `taskId`; nothing else changes. */
  function CompleteById(tasks: seq<Task>, taskId: TaskId): (r: seq<Task>)
    ensures |r| == |tasks|
    ensures forall i :: 0 <= i < |tasks| ==>
      r[i] == if tasks[i].id == taskId then tasks[i].(completed := true) else tasks[i]
  {
    if tasks == [] then []
    else
      var head := if tasks[0].id == taskId then tasks[0].(completed := true) else tasks[0];
      [head] + CompleteById(tasks[1..], taskId)
  }

  /** Every entry with the id ends up completed, no entry loses its
      completion, and ids, titles and descriptions are untouched. */
  lemma CompleteIsMonotone(tasks: seq<Task>, taskId: TaskId)
    ensures forall i :: 0 <= i < |tasks| && tasks[i].id == taskId ==> CompleteById(tasks, taskId)[i].completed
    ensures forall i :: 0 <= i < |tasks| && tasks[i].completed ==> CompleteById(tasks, taskId)[i].completed
    ensures forall i :: 0 <= i < |tasks| ==>
      var t := CompleteById(tasks, taskId)[i];
      t.id == tasks[i].id && t.title1 == tasks[i].title1 && t.desc == tasks[i].desc
  {
  }

  /** Marking the same id twice is marking it once. */
  lemma CompleteIdempotent(tasks: seq<Task>, taskId: TaskId)
    ensures CompleteById(CompleteById(tasks, taskId), taskId) == CompleteById(tasks, taskId)
  {
  }

  /** Marking keeps the ids unique, since it does not touch ids. */
  lemma CompleteKeepsUniqueIds(tasks: seq<Task>, taskId: TaskId)
    requires UniqueIds(tasks)
    ensures UniqueIds(CompleteById(tasks, taskId))
  {
  }

  /// Searching

  /** The lower-cased title contains the lower-cased query. The empty query
      matches every entry, and no entry matches a query longer than its title. */
  predicate Matches(t: Task, query: string)
    ensures query == "" ==> Matches(t, query)
    ensures Matches(t, query) ==> |query| <= |t.title1|
  {
    Contains(Lower(t.title1), Lower(query))
  }

  /** Keeps the entries whose title matches `query`, in list order. */
  function SearchFilter(tasks: seq<Task>, query: string): (r: seq<Task>)
    ensures forall t :: multiset(r)[t] == if Matches(t, query) then multiset(tasks)[t] else 0
    ensures forall t :: t in r <==> t in tasks && Matches(t, query)
  {
    Filter((t: Task) => Matches(t, query), tasks)
  }

  /** An entry matches exactly when the lower-cased query occurs as a
      contiguous substring of the lower-cased title. */
  lemma MatchesIff(t: Task, query: string)
    ensures Matches(t, query) <==> exists i :: OccursAt(Lower(t.title1), Lower(query), i)
  {
    var title, q := Lower(t.title1), Lower(query);
    ContainsIff(title, q);
    if Matches(t, query) {
      var i :| OccursAt(title, q, i);
      assert OccursAt(Lower(t.title1), Lower(query), i);
      assert exists k :: OccursAt(Lower(t.title1), Lower(query), k);
    }
  }

  /** Matching ignores the case of the query. */
  lemma MatchesIgnoresQueryCase(t: Task, query: string)
    ensures Matches(t, query) == Matches(t, Lower(query))
  {
    LowerIdempotent(query);
  }

  /** The search result keeps the matching entries in their original order. */
  lemma SearchIsSubsequence(tasks: seq<Task>, query: string)
    ensures IsSubsequence(SearchFilter(tasks, query), tasks)
  {
    FilterIsSubsequence((t: Task) => Matches(t, query), tasks);
  }

  /** The empty query keeps every entry. */
  lemma SearchEmptyKeepsAll(tasks: seq<Task>)
    ensures SearchFilter(tasks, "") == tasks
  {
    forall t | t in tasks
      ensures Matches(t, "")
    {
      ContainsEmpty(Lower(t.title1));
    }
    FilterKeepsAll((t: Task) => Matches(t, ""), tasks);
  }

  /// Display

  /** What the list shows: the filtered entries while the search box holds
      text, all entries otherwise. */
  function Shown(search: string, filtered: seq<Task>, tasks: seq<Task>): (r: seq<Task>)
    ensures search == "" ==> r == tasks
    ensures search != "" ==> r == filtered
  {
    if search != "" then filtered else tasks
  }

  /** When the filtered entries are computed from the current list, choosing
      between them and the full list by the search text is the same as
      always showing the search result: an empty query keeps everything. */
  lemma ShownIsSearchResult(tasks: seq<Task>, search: string)
    ensures Shown(search, SearchFilter(tasks, search), tasks) == SearchFilter(tasks, search)
  {
    if search == "" {
      SearchEmptyKeepsAll(tasks);
    }
  }

  /// Examples

  /** Typing "f" matches the seed entry "First TODO". */
  lemma SeedMatchesF()
    ensures SearchFilter([SeedTask], "f") == [SeedTask]
  {
    var title := Lower(SeedTask.title1);
    assert title[0] == 'f';
    assert Lower("f") == "f";
    assert "f" <= title;
  }

  /** Typing "fir" matches the seed entry "First TODO". */
  lemma SeedMatchesFir()
    ensures SearchFilter([SeedTask], "fir") == [SeedTask]
  {
    var title := Lower(SeedTask.title1);
    assert title[0] == 'f' && title[1] == 'i' && title[2] == 'r';
    assert Lower("fir") == "fir";
    assert title[..3] == "fir";
  }

  /** A title starting with "Buy" matches the query "buy". */
  lemma BuyPrefixMatches(t: Task)
    requires |t.title1| >= 3 && t.title1[..3] == "Buy"
    ensures Matches(t, "buy")
  {
    var title := Lower(t.title1);
    assert title[0] == 'b' && title[1] == 'u' && title[2] == 'y';
    assert Lower("buy") == "buy";
    assert title[..3] == "buy";
  }

  /** "Walk dog" does not match the query "buy": it has no letter b. */
  lemma WalkDogMissesBuy(t: Task)
    requires t.title1 == "Walk dog"
    ensures !Matches(t, "buy")
  {
    var title := Lower(t.title1);
    forall i | 0 <= i < |title|
      ensures title[i] != 'b'
    {
      assert title[i] == LowerChar(t.title1[i]);
    }
    assert Lower("buy") == "buy";
    ContainsNeedsFirstChar(title, "buy");
  }

  /** Searching "buy" among "Buy milk", "Walk dog" and "Buy bread" yields
      the first and the third entry, in that order. */
  lemma SearchBuyExample(milk: Task, dog: Task, bread: Task)
    requires milk.title1 == "Buy milk" && dog.title1 == "Walk dog" && bread.title1 == "Buy bread"
    ensures SearchFilter([milk, dog, bread], "buy") == [milk, bread]
  {
    BuyPrefixMatches(milk);
    WalkDogMissesBuy(dog);
    BuyPrefixMatches(bread);
    var ts := [milk, dog, bread];
    assert ts[1..] == [dog, bread] && ts[1..][1..] == [bread] && [bread][1..] == [];
    assert SearchFilter([bread], "buy") == [bread];
    assert SearchFilter([dog, bread], "buy") == [bread];
  }
}
