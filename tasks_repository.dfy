/** The older in-memory task store (core/repository/TasksRepository.java).
    Its tasks are built with the four-argument constructor, so updatedAt
    stays null; addTask returns the new id. */
module TasksRepository {
  import opened Wrappers
  import opened TaskModel

  class TasksRepository {
    var taskMap: map<string, Task>

    constructor ()
      ensures taskMap == map[]
    {
      taskMap := map[];
    }

    /** addTask: binds the id to a task with that id, the request's text,
        status "inbox" and the creation stamp, and returns the id. */
    method AddTask(text: string, id: string, now: string) returns (r: string)
      modifies this
      ensures r == id
      ensures taskMap == old(taskMap)[id := Task(id, text, "inbox", Some(now), None)]
      ensures id !in old(taskMap) ==> |taskMap| == |old(taskMap)| + 1
    {
      taskMap := taskMap[id := Task(id, text, "inbox", Some(now), None)];
      r := id;
    }

    /** getAllTasks: a fresh list holding each bound task once, in the
        map's iteration order (returned as `keys`, which is unspecified). */
    method GetAllTasks() returns (tasks: seq<Task>, ghost keys: seq<string>)
      ensures |tasks| == |keys| == |taskMap|
      ensures forall i, j :: 0 <= i < j < |keys| ==> keys[i] != keys[j]
      ensures forall i :: 0 <= i < |keys| ==> keys[i] in taskMap && tasks[i] == taskMap[keys[i]]
      ensures forall k :: k in taskMap ==> k in keys
      ensures forall t :: t in tasks <==> t in taskMap.Values
    {
      tasks, keys := [], [];
      var rest := taskMap.Keys;
      while rest != {}
        invariant rest <= taskMap.Keys
        invariant |tasks| == |keys| && |keys| + |rest| == |taskMap|
        invariant forall i, j :: 0 <= i < j < |keys| ==> keys[i] != keys[j]
        invariant forall i :: 0 <= i < |keys| ==> keys[i] in taskMap && keys[i] !in rest && tasks[i] == taskMap[keys[i]]
        invariant forall k :: k in taskMap ==> k in keys || k in rest
        decreases rest
      {
        var k :| k in rest;
        tasks, keys := tasks + [taskMap[k]], keys + [k];
        rest := rest - {k};
      }
      forall t | t in taskMap.Values ensures t in tasks {
        var k :| k in taskMap && taskMap[k] == t;
        var i :| 0 <= i < |keys| && keys[i] == k;
        assert tasks[i] == t;
      }
    }

    /** getTaskByID: the bound task, or null; the map is only read. */
    method GetTaskByID(id: string) returns (r: Option<Task>)
      ensures r.Some? <==> id in taskMap
      ensures r.Some? ==> r.value == taskMap[id]
    {
      if id in taskMap {
        r := Some(taskMap[id]);
      } else {
        r := None;
      }
    }

    /** deleteTask: removes the binding and returns the previous value, or null. */
    method DeleteTask(id: string) returns (r: Option<Task>)
      modifies this
      ensures r == (if id in old(taskMap) then Some(old(taskMap)[id]) else None)
      ensures taskMap == old(taskMap) - {id}
      ensures |taskMap| == if id in old(taskMap) then |old(taskMap)| - 1 else |old(taskMap)|
    {
      if id in taskMap {
        r := Some(taskMap[id]);
      } else {
        r := None;
      }
      taskMap := taskMap - {id};
    }

    /** updateTask: replaces the binding only when the id is already a key
        and returns the previous value; an absent id gives null and inserts
        nothing. */
    method UpdateTask(id: string, newTask: Task) returns (r: Option<Task>)
      modifies this
      ensures r == (if id in old(taskMap) then Some(old(taskMap)[id]) else None)
      ensures taskMap == if id in old(taskMap) then old(taskMap)[id := newTask] else old(taskMap)
      ensures taskMap.Keys == old(taskMap).Keys && |taskMap| == |old(taskMap)|
    {
      if id in taskMap {
        r := Some(taskMap[id]);
        taskMap := taskMap[id := newTask];
      } else {
        r := None;
      }
    }
  }
}
