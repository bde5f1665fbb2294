/** The to-do screen component: its state fields and the handlers that
    replace them. Each handler runs to completion on one user action. */
module App {
  import opened Tasks

  class TaskStore {
    /** The task list. */
    var tasks: seq<Task>
    /** The add-task form's title and description inputs. */
    var title: string
    var description: string
    /** The search box's text. */
    var search: string
    /** The snapshot of `tasks` taken by the previous search keystroke. */
    var fullData: seq<Task>
    /** The search result the list shows while `search` is non-empty. */
    var filteredTasks: seq<Task>

    /** A fresh screen: the seed entry, empty inputs, no search result. */
    constructor ()
      ensures tasks == [SeedTask]
      ensures title == "" && description == "" && search == ""
      ensures fullData == [] && filteredTasks == []
    {
      tasks := [SeedTask];
      title, description, search := "", "", "";
      fullData, filteredTasks := [], [];
    }

    /** The entries the list renders: the search result while the search
        box holds text, the whole task list otherwise. */
    function Displayed(): (r: seq<Task>)
      reads this
      ensures search == "" ==> r == tasks
      ensures search != "" ==> r == filteredTasks
    {
      Shown(search, filteredTasks, tasks)
    }

    /** Typing into the dialog's title input. */
    method SetTitle(value: string)
      modifies this`title
      ensures title == value
    {
      title := value;
    }

    /** Typing into the dialog's description input. */
    method SetDescription(value: string)
      modifies this`description
      ensures description == value
    {
      description := value;
    }

    /** Pressing "Add": with an empty input nothing changes and `added` is
        false (the app raises its "Cannot Add Empty Task" alert); otherwise
        a new uncompleted entry with id `id` is appended and both inputs are
        cleared. */
    method AddTask(id: TaskId) returns (added: bool)
      modifies this`tasks, this`title, this`description
      ensures added <==> old(title) != "" && old(description) != ""
      ensures added ==> tasks == old(tasks) + [Task(id, old(title), old(description), false)]
      ensures added ==> title == "" && description == ""
      ensures !added ==> tasks == old(tasks) && title == old(title) && description == old(description)
    {
      match Add(tasks, title, description, id)
      case Err(_) =>
        added := false;
      case Ok(next) =>
        tasks, title, description := next, "", "";
        added := true;
    }

    /** Pressing an entry's delete icon: every entry with that id goes. */
    method DeleteTodo(taskId: TaskId)
      modifies this`tasks
      ensures tasks == Delete(old(tasks), taskId)
      ensures forall t :: t in tasks <==> t in old(tasks) && t.id != taskId
    {
      tasks := Delete(tasks, taskId);
    }

    /** Confirming "Mark Completed?": every entry with that id is completed,
        and no entry loses its completion. */
    method MarkCompleted(taskId: TaskId)
      modifies this`tasks
      ensures tasks == CompleteById(old(tasks), taskId)
      ensures |tasks| == |old(tasks)|
      ensures forall i :: 0 <= i < |tasks| && old(tasks)[i].completed ==> tasks[i].completed
    {
      tasks := CompleteById(tasks, taskId);
    }

    /** A keystroke in the search box, as the app does it: the result is
        computed from the snapshot the previous keystroke stored, and only
        then is the current list stored as the next snapshot. */
    method SearchData(text: string)
      modifies this`fullData, this`filteredTasks, this`search
      ensures fullData == old(tasks)
      ensures filteredTasks == SearchFilter(old(fullData), text)
      ensures search == text
      ensures Displayed() == if text == "" then tasks else SearchFilter(old(fullData), text)
    {
      var snapshot := fullData;
      fullData := tasks;
      filteredTasks := SearchFilter(snapshot, text);
      search := text;
    }

    /** A keystroke in the search box, filtering the current list. What is
        shown is then exactly the search result over the current list. */
    method SearchCurrent(text: string)
      modifies this`fullData, this`filteredTasks, this`search
      ensures fullData == tasks
      ensures filteredTasks == SearchFilter(tasks, text)
      ensures search == text
      ensures Displayed() == SearchFilter(tasks, text)
    {
      fullData := tasks;
      filteredTasks := SearchFilter(tasks, text);
      search := text;
      ShownIsSearchResult(tasks, text);
    }
  }

  /** The first keystroke on a fresh screen: typing "f" shows nothing,
      although the seed entry "First TODO" matches. */
  method StaleSearchScenario() returns (shown: seq<Task>, matching: seq<Task>)
    ensures shown == []
    ensures matching == [SeedTask]
  {
    var app := new TaskStore();
    app.SearchData("f");
    shown := app.Displayed();
    SeedMatchesF();
    matching := SearchFilter(app.tasks, app.search);
  }

  /** A task deleted while a search is active stays on the displayed list
      through the next keystroke, which filters the snapshot taken before
      the deletion; it disappears only on the keystroke after that. */
  method StaleAfterDeleteScenario() returns (shownNext: seq<Task>, shownSecond: seq<Task>)
    ensures shownNext == [SeedTask]
    ensures shownSecond == []
  {
    var app := new TaskStore();
    app.SearchData("f");
    app.SearchData("fi");
    app.DeleteTodo(SeedTask.id);
    assert app.tasks == [];
    SeedMatchesFir();
    app.SearchData("fir");
    shownNext := app.Displayed();
    app.SearchData("firs");
    shownSecond := app.Displayed();
  }

  /** The same keystroke with the current list filtered shows the seed entry. */
  method CurrentSearchScenario() returns (shown: seq<Task>)
    ensures shown == [SeedTask]
  {
    var app := new TaskStore();
    app.SearchCurrent("f");
    SeedMatchesF();
    shown := app.Displayed();
  }
}
