/** The task record and the list transforms that the Home page applies to its
    task collection: the `find`, `map` and `filter` expressions of its handlers,
    written as functions over an immutable sequence of task values. */
module Tasks {

  datatype Option<T> = None | Some(value: T)

  /** One entry of the to-do list. */
  datatype Task = Task(id: int, title: string, done: bool)

  /** What a row asks the page to do (the callbacks it was handed). */
  datatype Intent =
    | ToggleTaskDone(id: int)
    | RemoveTask(id: int)
    | EditTask(taskId: int, taskNewTitle: string)

  predicate HasId(tasks: seq<Task>, id: int)
  {
    exists i :: 0 <= i < |tasks| && tasks[i].id == id
  }

  predicate HasTitle(tasks: seq<Task>, title: string)
  {
    exists i :: 0 <= i < |tasks| && tasks[i].title == title
  }

  /** No two tasks of the list share an id. */
  predicate UniqueIds(tasks: seq<Task>)
  {
    forall i, j :: 0 <= i < j < |tasks| ==> tasks[i].id != tasks[j].id
  }

  /** No two tasks of the list share a title. */
  predicate DistinctTitles(tasks: seq<Task>)
  {
    forall i, j :: 0 <= i < j < |tasks| ==> tasks[i].title != tasks[j].title
  }

  /** The ids carried by the tasks of the list. */
  function Ids(tasks: seq<Task>): (r: set<int>)
  {
    set i | 0 <= i < |tasks| :: tasks[i].id
  }

  /** Number of tasks carrying the given id. */
  function CountId(tasks: seq<Task>, id: int): (n: nat)
  {
    if tasks == [] then 0
    else (if tasks[0].id == id then 1 else 0) + CountId(tasks[1..], id)
  }

  /** `s` is `t` with some elements left out, the rest kept in order. */
  predicate IsSubsequence(s: seq<Task>, t: seq<Task>)
    decreases |t|
  {
    if s == [] then true
    else if t == [] then false
    else if s[0] == t[0] then IsSubsequence(s[1..], t[1..])
    else IsSubsequence(s, t[1..])
  }

  // ---------------------------------------------------------------------
  // The lookups: `tasks.find(task => task.title === title)` and
  // `tasks.find(task => task.id === id)`; the page only tests whether they
  // found something.
  // ---------------------------------------------------------------------

  /** The first task whose title is `title`, if any. */
  function FindByTitle(tasks: seq<Task>, title: string): (r: Option<Task>)
    ensures r.Some? <==> HasTitle(tasks, title)
    ensures r.Some? ==> exists i :: 0 <= i < |tasks| && tasks[i] == r.value &&
                                    r.value.title == title && !HasTitle(tasks[..i], title)
  {
    if tasks == [] then None
    else if tasks[0].title == title then
      assert tasks[..0] == [];
      Some(tasks[0])
    else
      var r := FindByTitle(tasks[1..], title);
      if r.Some? then
        var i :| 0 <= i < |tasks[1..]| && tasks[1..][i] == r.value &&
                 r.value.title == title && !HasTitle(tasks[1..][..i], title);
        assert tasks[..i + 1] == [tasks[0]] + tasks[1..][..i];
        r
      else r
  }

  /** The first task whose id is `id`, if any. */
  function FindById(tasks: seq<Task>, id: int): (r: Option<Task>)
    ensures r.Some? <==> HasId(tasks, id)
    ensures r.Some? ==> exists i :: 0 <= i < |tasks| && tasks[i] == r.value &&
                                    r.value.id == id && !HasId(tasks[..i], id)
  {
    if tasks == [] then None
    else if tasks[0].id == id then
      assert tasks[..0] == [];
      Some(tasks[0])
    else
      var r := FindById(tasks[1..], id);
      if r.Some? then
        var i :| 0 <= i < |tasks[1..]| && tasks[1..][i] == r.value &&
                 r.value.id == id && !HasId(tasks[1..][..i], id);
        assert tasks[..i + 1] == [tasks[0]] + tasks[1..][..i];
        r
      else r
  }

  // ---------------------------------------------------------------------
  // The four transforms.
  // ---------------------------------------------------------------------

  /** handleAddTask: a title already in the list is rejected and the list
      stays as it is; otherwise a new, not-done task is appended. */
  function Add(tasks: seq<Task>, title: string, freshId: int): (r: seq<Task>)
    ensures HasTitle(tasks, title) ==> r == tasks
    ensures !HasTitle(tasks, title) ==>
              |r| == |tasks| + 1 && r[..|tasks|] == tasks &&
              r[|tasks|] == Task(freshId, title, false)
  {
    if FindByTitle(tasks, title).Some? then tasks
    else tasks + [Task(freshId, title, false)]
  }

  /** The `map` of handleToggleTaskDone: every task with the id has its
      `done` flag flipped, every other task is kept. */
  function Toggle(tasks: seq<Task>, id: int): (r: seq<Task>)
    ensures |r| == |tasks|
    ensures forall i :: 0 <= i < |tasks| ==>
              r[i].id == tasks[i].id && r[i].title == tasks[i].title &&
              r[i].done == (if tasks[i].id == id then !tasks[i].done else tasks[i].done)
  {
    if tasks == [] then []
    else
      var t := tasks[0];
      [if t.id == id then t.(done := !t.done) else t] + Toggle(tasks[1..], id)
  }

  /** The `filter` run when a removal is confirmed: the tasks whose id
      differs, in their original order. */
  function Remove(tasks: seq<Task>, id: int): (r: seq<Task>)
    ensures IsSubsequence(r, tasks)
    ensures forall t :: t in r ==> t.id != id
    ensures |r| == |tasks| - CountId(tasks, id)
  {
    if tasks == [] then []
    else if tasks[0].id == id then
      var r := Remove(tasks[1..], id);
      assert r != [] ==> r[0] != tasks[0];
      r
    else
      var r := [tasks[0]] + Remove(tasks[1..], id);
      assert r[1..] == Remove(tasks[1..], id);
      r
  }

  /** The `map` of handleEditTask: every task with the id gets the new
      title; ids, `done` flags and all other tasks are kept. No check is
      made that the new title is not already used. */
  function Edit(tasks: seq<Task>, id: int, newTitle: string): (r: seq<Task>)
    ensures |r| == |tasks|
    ensures forall i :: 0 <= i < |tasks| ==>
              r[i].id == tasks[i].id && r[i].done == tasks[i].done &&
              r[i].title == (if tasks[i].id == id then newTitle else tasks[i].title)
  {
    if tasks == [] then []
    else
      var t := tasks[0];
      [if t.id == id then t.(title := newTitle) else t] + Edit(tasks[1..], id, newTitle)
  }

  // ---------------------------------------------------------------------
  // Properties of the transforms.
  // ---------------------------------------------------------------------

  /** Appending a task whose id is fresh keeps ids unique. */
  lemma AddKeepsIdsUnique(tasks: seq<Task>, title: string, freshId: int)
    requires UniqueIds(tasks) && !HasId(tasks, freshId)
    ensures UniqueIds(Add(tasks, title, freshId))
  {
  }

  /** Because of the duplicate check, adding never makes two titles equal. */
  lemma AddKeepsTitlesDistinct(tasks: seq<Task>, title: string, freshId: int)
    requires DistinctTitles(tasks)
    ensures DistinctTitles(Add(tasks, title, freshId))
  {
  }

  /** Edit performs no duplicate check: it can give two tasks one title. */
  lemma EditCanDuplicateTitle()
    ensures var tasks := [Task(1, "A", false), Task(2, "B", false)];
            DistinctTitles(tasks) && HasId(tasks, 2) && !DistinctTitles(Edit(tasks, 2, "A"))
  {
    var tasks := [Task(1, "A", false), Task(2, "B", false)];
    var r := Edit(tasks, 2, "A");
    assert r[0].title == "A" && r[1].title == "A";
    assert tasks[1].id == 2;
  }

  lemma ToggleUnknownIdIsNoOp(tasks: seq<Task>, id: int)
    requires !HasId(tasks, id)
    ensures Toggle(tasks, id) == tasks
  {
  }

  /** Toggling the same id twice gives back the original list. */
  lemma ToggleTwiceRestores(tasks: seq<Task>, id: int)
    ensures Toggle(Toggle(tasks, id), id) == tasks
  {
  }

  /** With unique ids, toggling a present id flips exactly one task. */
  lemma ToggleFlipsOne(tasks: seq<Task>, id: int, k: nat)
    requires UniqueIds(tasks) && k < |tasks| && tasks[k].id == id
    ensures Toggle(tasks, id) == tasks[k := tasks[k].(done := !tasks[k].done)]
  {
  }

  lemma ToggleKeepsIdsUnique(tasks: seq<Task>, id: int)
    requires UniqueIds(tasks)
    ensures UniqueIds(Toggle(tasks, id))
  {
  }

  lemma EditUnknownIdIsNoOp(tasks: seq<Task>, id: int, newTitle: string)
    requires !HasId(tasks, id)
    ensures Edit(tasks, id, newTitle) == tasks
  {
  }

  /** After an edit, looking the id up finds the task with its new title. */
  lemma EditSetsTitle(tasks: seq<Task>, id: int, newTitle: string)
    requires HasId(tasks, id)
    ensures FindById(Edit(tasks, id, newTitle), id).Some?
    ensures FindById(Edit(tasks, id, newTitle), id).value.title == newTitle
  {
  }

  /** With unique ids, editing the id of the task at `k` retitles that task
      alone. */
  lemma EditRetitlesOne(tasks: seq<Task>, k: nat, newTitle: string)
    requires UniqueIds(tasks) && k < |tasks|
    ensures Edit(tasks, tasks[k].id, newTitle) == tasks[k := tasks[k].(title := newTitle)]
  {
  }

  lemma EditKeepsIdsUnique(tasks: seq<Task>, id: int, newTitle: string)
    requires UniqueIds(tasks)
    ensures UniqueIds(Edit(tasks, id, newTitle))
  {
  }

  lemma {:induction false} CountIdAbsent(tasks: seq<Task>, id: int)
    requires !HasId(tasks, id)
    ensures CountId(tasks, id) == 0
  {
    if tasks != [] {
      assert tasks[0].id != id;
      assert !HasId(tasks[1..], id);
      CountIdAbsent(tasks[1..], id);
    }
  }

  /** With unique ids a present id is carried by exactly one task. */
  lemma {:induction false} CountIdUnique(tasks: seq<Task>, id: int)
    requires UniqueIds(tasks) && HasId(tasks, id)
    ensures CountId(tasks, id) == 1
  {
    assert tasks != [];
    assert UniqueIds(tasks[1..]) by {
      forall i, j | 0 <= i < j < |tasks[1..]| ensures tasks[1..][i].id != tasks[1..][j].id {
        assert tasks[i + 1].id != tasks[j + 1].id;
      }
    }
    if tasks[0].id == id {
      assert !HasId(tasks[1..], id);
      CountIdAbsent(tasks[1..], id);
    } else {
      var i :| 0 <= i < |tasks| && tasks[i].id == id;
      assert tasks[1..][i - 1].id == id;
      CountIdUnique(tasks[1..], id);
    }
  }

  /** With unique ids, the list holds as many tasks as it has ids. */
  lemma {:induction false} UniqueIdsCount(tasks: seq<Task>)
    ensures UniqueIds(tasks) ==> |Ids(tasks)| == |tasks|
  {
    if tasks != [] && UniqueIds(tasks) {
      var rest := tasks[1..];
      assert UniqueIds(rest) by {
        forall i, j | 0 <= i < j < |rest| ensures rest[i].id != rest[j].id {
          assert tasks[i + 1].id != tasks[j + 1].id;
        }
      }
      assert Ids(tasks) == {tasks[0].id} + Ids(rest) by {
        forall x | x in Ids(tasks) ensures x in {tasks[0].id} + Ids(rest) {
          var i :| 0 <= i < |tasks| && tasks[i].id == x;
          if i > 0 { assert rest[i - 1].id == x; }
        }
        forall x | x in Ids(rest) ensures x in Ids(tasks) {
          var i :| 0 <= i < |rest| && rest[i].id == x;
          assert tasks[i + 1].id == x;
        }
      }
      assert tasks[0].id !in Ids(rest) by {
        forall i | 0 <= i < |rest| ensures rest[i].id != tasks[0].id {
          assert tasks[0].id != tasks[i + 1].id;
        }
      }
      UniqueIdsCount(rest);
    }
  }

  /** Removing an unknown id changes nothing. */
  lemma RemoveUnknownIdIsNoOp(tasks: seq<Task>, id: int)
    requires !HasId(tasks, id)
    ensures Remove(tasks, id) == tasks
  {
  }

  /** With unique ids, removing a present id shortens the list by one and
      leaves the id absent. */
  lemma RemoveDropsOne(tasks: seq<Task>, id: int)
    requires UniqueIds(tasks) && HasId(tasks, id)
    ensures |Remove(tasks, id)| == |tasks| - 1
    ensures !HasId(Remove(tasks, id), id)
  {
    CountIdUnique(tasks, id);
  }

  lemma RemoveKeepsIdsUnique(tasks: seq<Task>, id: int)
    requires UniqueIds(tasks)
    ensures UniqueIds(Remove(tasks, id))
  {
    SubsequenceKeepsIdsUnique(Remove(tasks, id), tasks);
  }

  /** The contract of Remove pins its result down: any list meeting it is
      the filter's result. */
  lemma {:induction false} FilterUnique(r: seq<Task>, tasks: seq<Task>, id: int)
    requires IsSubsequence(r, tasks)
    requires forall t :: t in r ==> t.id != id
    requires |r| == |tasks| - CountId(tasks, id)
    ensures r == Remove(tasks, id)
  {
    if tasks == [] {
    } else if tasks[0].id == id {
      assert r == [] || r[0] != tasks[0] by {
        if r != [] { assert r[0] in r; }
      }
      FilterUnique(r, tasks[1..], id);
    } else if r != [] && r[0] == tasks[0] {
      assert forall t :: t in r[1..] ==> t in r;
      FilterUnique(r[1..], tasks[1..], id);
      assert r == [r[0]] + r[1..];
    } else {
      if r == [] {
        CountIdBound(tasks[1..], id);
      } else {
        SubsequenceAvoidingBound(r, tasks[1..], id);
      }
      assert false;
    }
  }

  /** The list after adding each title in turn, the i-th with id `ids[i]`. */
  function AddAll(tasks: seq<Task>, titles: seq<string>, ids: seq<int>): (r: seq<Task>)
    requires |ids| == |titles|
    decreases |titles|
  {
    if titles == [] then tasks
    else AddAll(Add(tasks, titles[0], ids[0]), titles[1..], ids[1..])
  }

  /** The tasks created by adding each title in turn, the i-th with id `ids[i]`. */
  function Created(titles: seq<string>, ids: seq<int>): (r: seq<Task>)
    requires |ids| == |titles|
  {
    seq(|titles|, i requires 0 <= i < |titles| => Task(ids[i], titles[i], false))
  }

  /** Adding titles that are new and pairwise distinct appends one not-done
      task per add, in call order. */
  lemma {:induction false} AddAllAppends(tasks: seq<Task>, titles: seq<string>, ids: seq<int>)
    requires |ids| == |titles|
    requires forall i :: 0 <= i < |titles| ==> !HasTitle(tasks, titles[i])
    requires forall i, j :: 0 <= i < j < |titles| ==> titles[i] != titles[j]
    ensures AddAll(tasks, titles, ids) == tasks + Created(titles, ids)
    decreases |titles|
  {
    if titles != [] {
      var next := Add(tasks, titles[0], ids[0]);
      assert next == tasks + [Task(ids[0], titles[0], false)];
      forall i | 0 <= i < |titles[1..]| ensures !HasTitle(next, titles[1..][i]) {
        assert titles[0] != titles[i + 1];
        assert !HasTitle(tasks, titles[i + 1]);
      }
      AddAllAppends(next, titles[1..], ids[1..]);
      assert Created(titles, ids) == [Task(ids[0], titles[0], false)] + Created(titles[1..], ids[1..]);
    }
  }

  // ---------------------------------------------------------------------
  // The scenarios the page is expected to follow.
  // ---------------------------------------------------------------------

  /** Adding "Buy milk" twice keeps a single task. */
  lemma ScenarioDuplicateAdd()
    ensures Add(Add([], "Buy milk", 1), "Buy milk", 2) == [Task(1, "Buy milk", false)]
  {
  }

  /** Add A, add B, toggle A: A is done, B is not, order is kept. */
  lemma ScenarioToggleKeepsOrder()
    ensures Toggle(Add(Add([], "A", 1), "B", 2), 1) == [Task(1, "A", true), Task(2, "B", false)]
  {
  }

  /** Add A, then removing it on confirmation empties the list, and editing
      it keeps its id and flag. */
  lemma ScenarioRemoveAndEdit()
    ensures Remove(Add([], "A", 1), 1) == []
    ensures Edit(Add([], "A", 1), 1, "A2") == [Task(1, "A2", false)]
  {
  }

  // ---------------------------------------------------------------------
  // Helpers about subsequences and counts.
  // ---------------------------------------------------------------------

  lemma {:induction false} CountIdBound(tasks: seq<Task>, id: int)
    ensures CountId(tasks, id) <= |tasks|
  {
    if tasks != [] { CountIdBound(tasks[1..], id); }
  }

  /** A subsequence avoiding `id` is no longer than the tasks without it. */
  lemma {:induction false} SubsequenceAvoidingBound(s: seq<Task>, t: seq<Task>, id: int)
    requires IsSubsequence(s, t)
    requires forall x :: x in s ==> x.id != id
    ensures |s| <= |t| - CountId(t, id)
    decreases |t|
  {
    if s == [] {
      CountIdBound(t, id);
    } else if s[0] == t[0] {
      assert s[0] in s;
      assert forall x :: x in s[1..] ==> x in s;
      SubsequenceAvoidingBound(s[1..], t[1..], id);
    } else {
      SubsequenceAvoidingBound(s, t[1..], id);
    }
  }

  /** A subsequence of a list with unique ids has unique ids. */
  lemma {:induction false} SubsequenceKeepsIdsUnique(s: seq<Task>, t: seq<Task>)
    requires IsSubsequence(s, t) && UniqueIds(t)
    ensures UniqueIds(s)
    decreases |t|
  {
    if s != [] {
      assert UniqueIds(t[1..]) by {
        forall i, j | 0 <= i < j < |t[1..]| ensures t[1..][i].id != t[1..][j].id {
          assert t[i + 1].id != t[j + 1].id;
        }
      }
      if s[0] == t[0] {
        SubsequenceKeepsIdsUnique(s[1..], t[1..]);
        SubsequenceMembers(s[1..], t[1..]);
        forall i, j | 0 <= i < j < |s| ensures s[i].id != s[j].id {
          if i == 0 {
            assert s[j] == s[1..][j - 1];
            assert s[j] in t[1..];
            var k :| 0 <= k < |t[1..]| && t[1..][k] == s[j];
            assert t[0].id != t[k + 1].id;
          } else {
            assert s[i] == s[1..][i - 1] && s[j] == s[1..][j - 1];
          }
        }
      } else {
        SubsequenceKeepsIdsUnique(s, t[1..]);
      }
    }
  }

  lemma {:induction false} SubsequenceMembers(s: seq<Task>, t: seq<Task>)
    requires IsSubsequence(s, t)
    ensures forall x :: x in s ==> x in t
    decreases |t|
  {
    if s != [] {
      if s[0] == t[0] {
        SubsequenceMembers(s[1..], t[1..]);
        assert forall x :: x in s ==> x == s[0] || x in s[1..];
      } else {
        SubsequenceMembers(s, t[1..]);
      }
    }
  }
}
