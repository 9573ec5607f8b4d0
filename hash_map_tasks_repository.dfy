/** The in-memory task store (core/repository/HashMapTasksRepository.java).
    The HashMap is the field `taskMap`; put, remove and replace are
    reassignments of it. */
module HashMapTasksRepository {
  import opened Wrappers
  import opened TaskModel
  import opened TaskListing

  /** The updatedAt this store gives a new task. */
  const NotUpdated := "-----"

  class HashMapTasksRepository {
    var taskMap: map<string, Task>

    constructor ()
      ensures taskMap == map[]
    {
      taskMap := map[];
    }

    /** addTask: stores the new task under its own id (put overwrites any
        previous binding) and returns it. */
    method AddTask(text: string, id: string, now: string) returns (t: Task)
      modifies this
      ensures t == Task(id, text, "inbox", Some(now), Some(NotUpdated))
      ensures taskMap == old(taskMap)[id := t]
      ensures id !in old(taskMap) ==> |taskMap| == |old(taskMap)| + 1
    {
      t := Task(id, text, "inbox", Some(now), Some(NotUpdated));
      taskMap := taskMap[id := t];
    }

    /** getAllTasks: not implemented; it ignores its arguments and returns null. */
    method GetAllTasks(status: Option<string>, order: Option<string>, page: Option<Short>, size: Option<Short>)
      returns (r: Option<TaskPage>)
      ensures r == None
    {
      r := None;
    }

    /** getTaskByID: the bound task, or null; the map is only read. */
    method GetTaskByID(id: string) returns (r: Option<Task>)
      ensures r.Some? <==> id in taskMap
      ensures r.Some? ==> r.value == taskMap[id]
    {
      if id in taskMap {
        r := Some(taskMap[id]);
      } else {
        r := None;
      }
    }

    /** deleteTask: removes the binding and returns the previous value, or null. */
    method DeleteTask(id: string) returns (r: Option<Task>)
      modifies this
      ensures r == (if id in old(taskMap) then Some(old(taskMap)[id]) else None)
      ensures taskMap == old(taskMap) - {id}
      ensures |taskMap| == if id in old(taskMap) then |old(taskMap)| - 1 else |old(taskMap)|
    {
      if id in taskMap {
        r := Some(taskMap[id]);
      } else {
        r := None;
      }
      taskMap := taskMap - {id};
    }

    /** updateTask: replaces the binding only when the id is already a key
        and returns the previous value; an absent id gives null and inserts
        nothing. */
    method UpdateTask(id: string, newTask: Task) returns (r: Option<Task>)
      modifies this
      ensures r == (if id in old(taskMap) then Some(old(taskMap)[id]) else None)
      ensures taskMap == if id in old(taskMap) then old(taskMap)[id := newTask] else old(taskMap)
      ensures taskMap.Keys == old(taskMap).Keys && |taskMap| == |old(taskMap)|
    {
      if id in taskMap {
        r := Some(taskMap[id]);
        taskMap := taskMap[id := newTask];
      } else {
        r := None;
      }
    }
  }

  /** A client of the store: adding a task under a fresh id and then looking
      that id up returns the added task; deleting it makes the lookup null
      again and leaves the store as it was. */
  method AddGetDelete(store: HashMapTasksRepository, text: string, id: string, now: string)
    returns (added: Task, found: Option<Task>, deleted: Option<Task>, after: Option<Task>)
    requires id !in store.taskMap
    modifies store
    ensures found == Some(added) && deleted == Some(added) && after == None
    ensures added.id == id && added.text == text && added.status == "inbox"
    ensures store.taskMap == old(store.taskMap)
  {
    added := store.AddTask(text, id, now);
    found := store.GetTaskByID(added.id);
    deleted := store.DeleteTask(id);
    after := store.GetTaskByID(id);
  }
}
