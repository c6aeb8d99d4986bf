/** The task list as a value: the records the component keeps in its `tasks` state and the
    new lists that `addTask`, `toggleTaskCompletion` and `deleteTask` compute from the old one
    (with `map`, `filter` and array spread) before handing them to `setTasks`. */
module TaskLists {
  import opened Trimming

  /** One to-do item: `{ text, isComplete }`. */
  datatype Task = Task(text: string, isComplete: bool)

  /** Why `addTask` refused the pending input (the two alerts). */
  datatype AddError = EmptyInput | DuplicateText

  datatype Result<T> = Success(value: T) | Failure(error: AddError)

  /** `{ ...task, isComplete: !task.isComplete }` */
  function Flip(task: Task): (r: Task)
    ensures r.text == task.text && r.isComplete != task.isComplete
  {
    task.(isComplete := !task.isComplete)
  }

  /** `{ text: newTask.trim(), isComplete: false }`, the task a successful `addTask` creates
      from the pending input. */
  function NewTask(input: string): (r: Task)
    ensures !r.isComplete && Trimmed(r.text)
    ensures r.text == "" <==> AllWhitespace(input)
  {
    TrimEmptyIffAllWhitespace(input);
    Task(Trim(input), false)
  }

  /** `tasks.some(task => task.text === text)`, scanning from the front. */
  function HasText(tasks: seq<Task>, text: string): (r: bool)
    ensures r <==> exists i :: 0 <= i < |tasks| && tasks[i].text == text
  {
    if tasks == [] then false
    else tasks[0].text == text || HasText(tasks[1..], text)
  }

  /** `tasks.map((task, i) => i === index ? Flip(task) : task)`, one element at a time (the
      recursive call sees the rest of the list, so the position to flip moves down by one). */
  function Toggled(tasks: seq<Task>, index: int): (r: seq<Task>)
    ensures |r| == |tasks|
    ensures forall k :: 0 <= k < |r| ==> r[k] == if k == index then Flip(tasks[k]) else tasks[k]
  {
    if tasks == [] then []
    else [if index == 0 then Flip(tasks[0]) else tasks[0]] + Toggled(tasks[1..], index - 1)
  }

  /** `tasks.filter((_, i) => i !== index)`, one element at a time. */
  function Deleted(tasks: seq<Task>, index: int): (r: seq<Task>)
    ensures |r| == if 0 <= index < |tasks| then |tasks| - 1 else |tasks|
  {
    if tasks == [] then []
    else (if index == 0 then [] else [tasks[0]]) + Deleted(tasks[1..], index - 1)
  }

  /** The list `addTask` would store for the pending input `input`, or the reason it refuses:
      the trimmed input is empty, or some task already has exactly that text. */
  function Add(tasks: seq<Task>, input: string): (r: Result<seq<Task>>)
    ensures r == Failure(EmptyInput) <==> AllWhitespace(input)
    ensures r == Failure(DuplicateText) <==>
              !AllWhitespace(input) && exists i :: 0 <= i < |tasks| && tasks[i].text == Trim(input)
    ensures r.Success? ==> |r.value| == |tasks| + 1 && r.value[..|tasks|] == tasks
    ensures r.Success? ==> r.value[|tasks|] == NewTask(input)
  {
    TrimEmptyIffAllWhitespace(input);
    if Trim(input) == "" then Failure(EmptyInput)
    else if HasText(tasks, Trim(input)) then Failure(DuplicateText)
    else Success(tasks + [NewTask(input)])
  }

  /** No two tasks share a text. */
  predicate DistinctTexts(tasks: seq<Task>) {
    forall i, j :: 0 <= i < j < |tasks| ==> tasks[i].text != tasks[j].text
  }

  /** What every list built only by the component's own operations satisfies: texts are
      pairwise distinct, non-empty, and carry no white space at either end. */
  predicate WellFormed(tasks: seq<Task>) {
    && DistinctTexts(tasks)
    && forall i :: 0 <= i < |tasks| ==> tasks[i].text != "" && Trimmed(tasks[i].text)
  }

  /** Every text in a well-formed list is non-empty and a fixed point of `trim`. */
  lemma WellFormedTextsTrimmed(tasks: seq<Task>, i: int)
    requires WellFormed(tasks) && 0 <= i < |tasks|
    ensures tasks[i].text != "" && Trim(tasks[i].text) == tasks[i].text
  {
    TrimFixedIffTrimmed(tasks[i].text);
  }

  // ---- addTask ----

  /** An input that is not all white space and whose trimmed text no task has is accepted:
      the list grows by exactly that task at the end. */
  lemma AddAccepts(tasks: seq<Task>, input: string)
    requires Trim(input) != ""
    requires forall i :: 0 <= i < |tasks| ==> tasks[i].text != Trim(input)
    ensures Add(tasks, input) == Success(tasks + [NewTask(input)])
  {
  }

  /** A successful add stores a text that is non-empty and already trimmed. */
  lemma AddStoresTrimmedText(tasks: seq<Task>, input: string)
    requires Add(tasks, input).Success?
    ensures var t := Add(tasks, input).value[|tasks|].text;
            t != "" && Trim(t) == t && t == Trim(input)
  {
    TrimIdempotent(input);
  }

  /** Appending a task whose text is non-empty, trimmed and new keeps the list well formed. */
  lemma AppendPreservesWellFormed(tasks: seq<Task>, task: Task)
    requires WellFormed(tasks)
    requires task.text != "" && Trimmed(task.text)
    requires forall i :: 0 <= i < |tasks| ==> tasks[i].text != task.text
    ensures WellFormed(tasks + [task])
  {
    var r := tasks + [task];
    assert forall i :: 0 <= i < |tasks| ==> r[i] == tasks[i];
  }

  /** `addTask` keeps the list well formed. */
  lemma AddPreservesWellFormed(tasks: seq<Task>, input: string)
    requires WellFormed(tasks)
    ensures Add(tasks, input).Success? ==> WellFormed(Add(tasks, input).value)
  {
    if Add(tasks, input).Success? {
      var t := Trim(input);
      assert t != "" && !HasText(tasks, t);
      AppendPreservesWellFormed(tasks, NewTask(input));
    }
  }

  /** Adding the same trimmed text again right after it was added is refused as a duplicate,
      so the list grows by one, not two. */
  lemma AddSameTextTwice(tasks: seq<Task>, input: string, again: string)
    requires Trim(again) == Trim(input)
    ensures Add(tasks, input).Success? ==> Add(Add(tasks, input).value, again) == Failure(DuplicateText)
  {
    if Add(tasks, input).Success? {
      var r := Add(tasks, input).value;
      assert r[|tasks|].text == Trim(again);
      TrimEmptyIffAllWhitespace(input);
      TrimEmptyIffAllWhitespace(again);
    }
  }

  // ---- toggleTaskCompletion ----

  /** In range, toggling replaces one element by its flipped copy; out of range (negative or
      past the end), no `i` of the `map` equals the index and the list comes back equal. */
  lemma {:induction false} ToggledIsUpdate(tasks: seq<Task>, index: int)
    ensures 0 <= index < |tasks| ==> Toggled(tasks, index) == tasks[index := Flip(tasks[index])]
    ensures !(0 <= index < |tasks|) ==> Toggled(tasks, index) == tasks
  {
    var r := Toggled(tasks, index);
    if 0 <= index < |tasks| {
      assert forall k :: 0 <= k < |r| ==> r[k] == tasks[index := Flip(tasks[index])][k];
    } else {
      assert forall k :: 0 <= k < |r| ==> r[k] == tasks[k];
    }
  }

  /** Toggling the same position twice gives back the original list. */
  lemma {:induction false} ToggledTwice(tasks: seq<Task>, index: int)
    ensures Toggled(Toggled(tasks, index), index) == tasks
  {
    var r := Toggled(Toggled(tasks, index), index);
    assert forall k :: 0 <= k < |r| ==> r[k] == tasks[k];
  }

  /** Toggling copies every text unchanged, so it keeps the list well formed. */
  lemma {:induction false} ToggledPreservesWellFormed(tasks: seq<Task>, index: int)
    requires WellFormed(tasks)
    ensures WellFormed(Toggled(tasks, index))
  {
    var r := Toggled(tasks, index);
    assert forall k :: 0 <= k < |r| ==> r[k].text == tasks[k].text;
  }

  // ---- deleteTask ----

  /** In range, deleting removes exactly the element at `index` and keeps the others in
      order; out of range, the list comes back equal. */
  lemma {:induction false} DeletedIsSlice(tasks: seq<Task>, index: int)
    ensures 0 <= index < |tasks| ==> Deleted(tasks, index) == tasks[..index] + tasks[index + 1..]
    ensures !(0 <= index < |tasks|) ==> Deleted(tasks, index) == tasks
  {
    if tasks != [] {
      DeletedIsSlice(tasks[1..], index - 1);
      if index == 0 {
        assert tasks[..0] + tasks[1..] == tasks[1..];
      } else if 0 < index < |tasks| {
        assert tasks[..index] == [tasks[0]] + tasks[1..][..index - 1];
        assert tasks[index + 1..] == tasks[1..][index..];
      } else {
        assert [tasks[0]] + tasks[1..] == tasks;
      }
    }
  }

  /** Deleting removes an element, so it keeps the list well formed. */
  lemma {:induction false} DeletedPreservesWellFormed(tasks: seq<Task>, index: int)
    requires WellFormed(tasks)
    ensures WellFormed(Deleted(tasks, index))
  {
    DeletedIsSlice(tasks, index);
    var r := Deleted(tasks, index);
    if 0 <= index < |tasks| {
      assert forall k :: 0 <= k < |r| ==> r[k] == tasks[if k < index then k else k + 1];
      forall i, j | 0 <= i < j < |r|
        ensures r[i].text != r[j].text
      {
        var i', j' := if i < index then i else i + 1, if j < index then j else j + 1;
        assert r[i] == tasks[i'] && r[j] == tasks[j'] && i' < j';
      }
    }
  }

  // ---- a session ----

  /** Starting empty, with two different non-empty texts that carry no surrounding white space
      (say "Buy milk" and "Walk dog"): the first is added, adding it again is refused, and the
      second is added after it. */
  lemma SessionAdds(first: string, second: string)
    requires first != "" && Trimmed(first)
    requires second != "" && Trimmed(second)
    requires first != second
    ensures Add([], first) == Success([Task(first, false)])
    ensures Add([Task(first, false)], first) == Failure(DuplicateText)
    ensures Add([Task(first, false)], second) == Success([Task(first, false), Task(second, false)])
  {
    assert Add([], first) == Success([Task(first, false)]) by {
      TrimOfTrimmed(first);
      AddAccepts([], first);
      assert [] + [Task(first, false)] == [Task(first, false)];
    }
    assert Add([Task(first, false)], first) == Failure(DuplicateText) by {
      TrimOfTrimmed(first);
      AddAccepts([], first);
      assert [] + [Task(first, false)] == [Task(first, false)];
      AddSameTextTwice([], first, first);
    }
    assert Add([Task(first, false)], second) == Success([Task(first, false), Task(second, false)]) by {
      TrimOfTrimmed(second);
      AddAccepts([Task(first, false)], second);
      assert [Task(first, false)] + [Task(second, false)] == [Task(first, false), Task(second, false)];
    }
  }

  /** Continuing that session: toggling row 0 completes the first task, and deleting row 0
      then leaves only the second. */
  lemma SessionToggleAndDelete(first: string, second: string)
    ensures Toggled([Task(first, false), Task(second, false)], 0)
            == [Task(first, true), Task(second, false)]
    ensures Deleted([Task(first, true), Task(second, false)], 0) == [Task(second, false)]
  {
    ToggledIsUpdate([Task(first, false), Task(second, false)], 0);
    DeletedIsSlice([Task(first, true), Task(second, false)], 0);
  }
}
