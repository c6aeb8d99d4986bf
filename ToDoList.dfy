/** The `ToDoList` component's state and its event handlers. Each React state setter
    (`setTasks`, `setNewTask`) is an assignment to the matching field, taking effect at once. */
module Component {
  import opened Trimming
  import opened TaskLists

  /** What a click on "Add Task" reports: accepted, or the alert it raised instead. */
  datatype Outcome = Added | Rejected(error: AddError)

  class ToDoList {
    /** The `tasks` state: the rendered list, in insertion order. */
    var tasks: seq<Task>
    /** The `newTask` state: the current contents of the input field. */
    var newTask: string

    /** The invariant the component's own handlers keep (see TaskLists.WellFormed). */
    predicate Valid()
      reads this
    {
      WellFormed(tasks)
    }

    /** `useState([])` and `useState('')`. */
    constructor ()
      ensures tasks == [] && newTask == ""
      ensures Valid()
    {
      tasks := [];
      newTask := "";
    }

    /** The input's `onChange`: `setNewTask(e.target.value)`. */
    method SetNewTask(value: string)
      modifies this
      ensures newTask == value
      ensures tasks == old(tasks)
      ensures old(Valid()) ==> Valid()
    {
      newTask := value;
    }

    /** `addTask`: refuse an input that is empty once trimmed or whose trimmed text some task
        already has, changing nothing; otherwise append the new task and clear the input. */
    method AddTask() returns (outcome: Outcome)
      modifies this
      ensures outcome == Rejected(EmptyInput) <==> AllWhitespace(old(newTask))
      ensures outcome == Rejected(DuplicateText) <==>
                !AllWhitespace(old(newTask)) && exists i :: 0 <= i < |old(tasks)| && old(tasks)[i].text == Trim(old(newTask))
      ensures outcome.Rejected? ==> tasks == old(tasks) && newTask == old(newTask)
      ensures outcome == Added ==> tasks == old(tasks) + [NewTask(old(newTask))] && newTask == ""
      ensures outcome == Added ==> Add(old(tasks), old(newTask)) == Success(tasks)
      ensures old(Valid()) ==> Valid()
    {
      var text := Trim(newTask);
      if text == "" {
        TrimEmptyIffAllWhitespace(newTask);
        return Rejected(EmptyInput);
      }
      if HasText(tasks, text) {
        TrimEmptyIffAllWhitespace(newTask);
        return Rejected(DuplicateText);
      }
      var task := NewTask(newTask);
      var added := Add(tasks, newTask);
      assert added.Success? && added.value == tasks + [task];
      if Valid() {
        AddPreservesWellFormed(tasks, newTask);
      }
      tasks := tasks + [task];
      newTask := "";
      outcome := Added;
    }

    /** `toggleTaskCompletion(index)`: negate `isComplete` at `index` only; an index that is
        not a position of the list changes nothing. */
    method ToggleTaskCompletion(index: int)
      modifies this
      ensures tasks == Toggled(old(tasks), index)
      ensures 0 <= index < |old(tasks)| ==> tasks == old(tasks)[index := Flip(old(tasks)[index])]
      ensures !(0 <= index < |old(tasks)|) ==> tasks == old(tasks)
      ensures newTask == old(newTask)
      ensures old(Valid()) ==> Valid()
    {
      ToggledIsUpdate(tasks, index);
      if Valid() {
        ToggledPreservesWellFormed(tasks, index);
      }
      tasks := Toggled(tasks, index);
    }

    /** `deleteTask(index)`: drop the task at `index`, later ones moving down by one; an index
        that is not a position of the list changes nothing. */
    method DeleteTask(index: int)
      modifies this
      ensures tasks == Deleted(old(tasks), index)
      ensures 0 <= index < |old(tasks)| ==> tasks == old(tasks)[..index] + old(tasks)[index + 1..]
      ensures !(0 <= index < |old(tasks)|) ==> tasks == old(tasks)
      ensures newTask == old(newTask)
      ensures old(Valid()) ==> Valid()
    {
      DeletedIsSlice(tasks, index);
      if Valid() {
        DeletedPreservesWellFormed(tasks, index);
      }
      tasks := Deleted(tasks, index);
    }
  }
}
