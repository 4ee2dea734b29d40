// The main thread's part of startup: the status array and what each event does to it in place.

module StartupBoard {
  import opened BoundedQueue
  import opened Startup

  class Sequencer {
    const status: array<Status>
    const startupEvents: RingQueue<StartupEvent>
    var applicationFailed: bool
    var degraded: bool
    var workers: seq<Component>  // the worker threads launched so far

    ghost predicate Valid()
      reads this, startupEvents, startupEvents.storage
    {
      status.Length == COMPONENT_COUNT && startupEvents.Valid()
    }

    ghost function View(): (b: Board)
      reads this, status
      requires status.Length == COMPONENT_COUNT
      ensures b.Shaped()
    {
      Board(status[..], applicationFailed, degraded, workers)
    }

    constructor ()
      ensures Valid() && fresh(status) && fresh(startupEvents) && fresh(startupEvents.storage)
      ensures View() == START_BOARD && startupEvents.View() == Queue([], false)
    {
      status := new Status[COMPONENT_COUNT](_ => Waiting);
      startupEvents := new RingQueue(QUEUE_CAPACITY);
      applicationFailed, degraded, workers := false, false, [];
      new;
      StartComponent(Configuration);
      assert status[..] == START_BOARD.status;
    }

    method StartComponent(c: Component)
      requires Valid()
      modifies this`workers, status
      ensures Valid() && View() == old(View()).Start(c)
    {
      status[Index(c)] := Starting;
      workers := workers + [c];
    }

    method AllRequiredReady() returns (all: bool)
      requires Valid()
      ensures all == View().AllRequiredReady()
    {
      for k := 0 to COMPONENT_COUNT
        invariant forall j :: 0 <= j < k && Required(COMPONENTS[j]) ==> status[Index(COMPONENTS[j])] == Ready
      {
        var c := COMPONENTS[k];
        if Required(c) && status[Index(c)] != Ready {
          return false;
        }
      }
      assert forall c :: Required(c) ==> COMPONENTS[Index(c)] == c;
      assert Required(COMPONENTS[0]) && Required(COMPONENTS[1]) && Required(COMPONENTS[2]) && Required(COMPONENTS[3]);
      return true;
    }

    method TelemetryFinished() returns (finished: bool)
      requires Valid()
      ensures finished == View().TelemetryFinished()
    {
      var t := status[Index(Telemetry)];
      return t == Ready || t == Failed || t == Blocked;
    }

    method BlockWaitingComponents()
      requires Valid()
      modifies status
      ensures Valid() && View() == old(View()).BlockWaiting()
    {
      for k := 0 to COMPONENT_COUNT
        invariant forall j :: 0 <= j < COMPONENT_COUNT ==>
                    status[j] == if j < k && old(status[j]) == Waiting then Blocked else old(status[j])
      {
        if status[k] == Waiting {
          status[k] := Blocked;
        }
      }
      assert View().status == old(View()).BlockWaiting().status;
    }

    method HandleEvent(e: StartupEvent)
      requires Valid() && !applicationFailed
      modifies this, status, startupEvents`stopped
      ensures Valid() && View() == old(View()).Handle(e)
      ensures startupEvents.View()
           == old(startupEvents.View()).(stopped := old(startupEvents.stopped) || applicationFailed)
    {
      if !e.ready {
        status[Index(e.component)] := Failed;
        if Required(e.component) {
          applicationFailed := true;
          BlockWaitingComponents();
          startupEvents.Stop();
        } else {
          degraded := true;
        }
        return;
      }
      status[Index(e.component)] := Ready;
      StartTwo(View(), Sensor, Telemetry);
      StartOne(View(), Calibration);
      StartOne(View(), Processing);
      match e.component
      case Configuration =>
        StartComponent(Sensor);
        StartComponent(Telemetry);
      case Sensor =>
        StartComponent(Calibration);
      case Calibration =>
        StartComponent(Processing);
      case _ =>
    }

    // One turn of the event loop, pop having something to return; leave says that the loop breaks.
    method Turn(timedOut: bool) returns (leave: bool)
      requires Valid() && View().Unfinished() && !PopSection(startupEvents.View()).0.MustWait?
      modifies this, status, startupEvents, startupEvents.storage
      ensures Valid() && leave == (timedOut || old(startupEvents.View()).items == [])
      ensures leave ==> View() == old(View())
      ensures !leave ==> View() == old(View()).Handle(old(startupEvents.View()).items[0])
      ensures startupEvents.View().items
           == if old(startupEvents.View()).items == [] then [] else old(startupEvents.View()).items[1..]
      ensures startupEvents.stopped == (old(startupEvents.stopped) || (!leave && applicationFailed))
    {
      hide Board.Handle;
      var event := startupEvents.Pop();
      if timedOut {
        return true;
      }
      if event == Nothing {
        return true;
      }
      HandleEvent(event.item);
      return false;
    }
  }
}
