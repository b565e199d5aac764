/**
 * The resource lifecycle of `resources/resourcemanager.py`.
 *
 * A resource is reloaded off the caller's thread: `reload` hands a job to
 * the task handler and returns an event that is set once the job has
 * finished. Here the event is an object with a boolean flag, and the task
 * handler is the manager's queue of pending jobs, which the owner's worker
 * (`RunNextJob` in the owning class) takes from the front.
 */
module Resources {

  /** `ResourceManager.State` */
  datatype State = Uninitialized | Initializing | Ready | Removed

  /** A `threading.Event`, reduced to its flag. */
  class Event {
    var isSet: bool

    constructor (isSet: bool)
      ensures this.isSet == isSet
    {
      this.isSet := isSet;
    }

    method Set()
      modifies this
      ensures isSet
    {
      isSet := true;
    }

    method Clear()
      modifies this
      ensures !isSet
    {
      isSet := false;
    }
  }

  /**
   * A job handed to the task handler: the `_reload` coroutine, or a
   * config's `_set_value_update_file` for the named option.
   */
  datatype Job = ReloadJob | WriteJob(option: string)

  class ResourceManager {
    var state: State
    /** `_ready_event`: the same object for the manager's whole life. */
    const readyEvent: Event
    /** The jobs handed to `task_handler` that have not run yet, oldest first. */
    var jobs: seq<Job>

    /** A fresh manager is uninitialised, its event unset and nothing queued. */
    constructor ()
      ensures state == Uninitialized && !readyEvent.isSet && jobs == []
      ensures fresh(readyEvent)
    {
      state := Uninitialized;
      readyEvent := new Event(false);
      jobs := [];
    }

    /** `task_handler(job)` */
    method Queue(job: Job)
      modifies this
      ensures jobs == old(jobs) + [job]
      ensures state == old(state)
    {
      jobs := jobs + [job];
    }

    /** The worker takes the oldest pending job. */
    method TakeJob() returns (job: Job)
      requires |jobs| > 0
      modifies this
      ensures job == old(jobs)[0] && jobs == old(jobs)[1..]
      ensures state == old(state)
    {
      job := jobs[0];
      jobs := jobs[1..];
    }

    /**
     * `reload`: unless a reload is already in flight, enter INITIALIZING,
     * clear the event and queue exactly one reload job. Either way the
     * manager's own event is returned.
     */
    method Reload() returns (e: Event)
      modifies this, readyEvent
      ensures e == readyEvent
      ensures old(state) != Initializing ==>
        state == Initializing && !readyEvent.isSet && jobs == old(jobs) + [ReloadJob]
      ensures old(state) == Initializing ==>
        state == Initializing && readyEvent.isSet == old(readyEvent.isSet) && jobs == old(jobs)
    {
      if state != Initializing {
        state := Initializing;
        readyEvent.Clear();
        Queue(ReloadJob);
      }
      e := readyEvent;
    }

    /**
     * The end of the `_reload` job, once `_reload_inner` has run: READY and
     * the event set if the state is still INITIALIZING; otherwise the state
     * someone else chose is kept and the event stays as it was.
     */
    method CompleteReload()
      modifies this, readyEvent
      ensures jobs == old(jobs)
      ensures old(state) == Initializing ==> state == Ready && readyEvent.isSet
      ensures old(state) != Initializing ==>
        state == old(state) && readyEvent.isSet == old(readyEvent.isSet)
    {
      if state == Initializing {
        state := Ready;
        readyEvent.Set();
      }
    }

    /** `on_ready`: start the first load if there never was one; return the event. */
    method OnReady() returns (e: Event)
      modifies this, readyEvent
      ensures e == readyEvent
      ensures old(state) == Uninitialized ==>
        state == Initializing && !readyEvent.isSet && jobs == old(jobs) + [ReloadJob]
      ensures old(state) != Uninitialized ==>
        state == old(state) && jobs == old(jobs) && readyEvent.isSet == old(readyEvent.isSet)
    {
      if state == Uninitialized {
        e := Reload();
      }
      e := readyEvent;
    }
  }
}
