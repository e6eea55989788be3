/** The subscriber that keeps one event watcher per cluster that is up. */
module WatcherManager {
  import opened Common
  import opened ClusterLifecycle
  import opened LifecycleProofs
  import opened LifecycleTheorems

  class Watchers {
    var watched: set<string>   // the clusters a watcher runs for

    constructor ()
      ensures watched == {}
    {
      watched := {};
    }

    /** One received event; warned when it is a duplicate or about an unknown cluster. */
    method Handle(e: Published) returns (warned: bool)
      modifies this
      ensures warned <==> (e.Created? <==> e.name in old(watched))
      ensures watched == if warned then old(watched)
                         else if e.Created? then old(watched) + {e.name}
                         else old(watched) - {e.name}
    {
      warned := false;
      match e {
        case Created(name) =>
          if name in watched {
            warned := true;
          } else {
            watched := watched + {name};
          }
        case Removed(name) =>
          if name in watched {
            watched := watched - {name};
          } else {
            warned := true;
          }
      }
    }

    /** The event loop over a log published by some run of the lifecycle, read up to any point:
        it never warns, and what it watches is the fold of what it read. */
    method EventLoop(ghost labels: seq<Label>, log: seq<Published>) returns (everWarned: bool)
      requires watched == {} && log <= Run(labels).log
      modifies this
      ensures !everWarned
      ensures Watched(log) == Some(watched)
      ensures log == Run(labels).log ==> watched == LiveNames(Run(labels).clusters)
    {
      RunKeeps(labels);
      everWarned := false;
      for i := 0 to |log|
        invariant !everWarned
        invariant Watched(log[..i]) == Some(watched)
      {
        assert log[..i + 1] == Run(labels).log[..i + 1];
        WatchedPrefix(Run(labels).log, i + 1);
        assert log[..i + 1][..i] == log[..i];
        var warned := Handle(log[i]);
        everWarned := everWarned || warned;
      }
      assert log[..|log|] == log;
    }
  }
}
