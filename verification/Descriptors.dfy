/** The descriptors a part of libgep has opened and closed, in order, and which of them are open. */
module Descriptors {
  datatype FdEvent = Opened(fd: int) | Closed(fd: int)

  function OpenFds(fds: seq<FdEvent>): set<int> {
    if fds == [] then {}
    else
      var before := OpenFds(fds[..|fds| - 1]);
      match fds[|fds| - 1]
      case Opened(fd) => before + {fd}
      case Closed(fd) => before - {fd}
  }

  // Every close is of an open descriptor, so each opening is closed at most once.
  ghost predicate ClosesAreOfOpen(fds: seq<FdEvent>) {
    forall k | 0 <= k < |fds| && fds[k].Closed? :: fds[k].fd in OpenFds(fds[..k])
  }

  lemma FdsLast(fds: seq<FdEvent>, x: FdEvent)
    ensures OpenFds(fds + [x]) == if x.Opened? then OpenFds(fds) + {x.fd} else OpenFds(fds) - {x.fd}
    ensures ClosesAreOfOpen(fds) && (x.Closed? ==> x.fd in OpenFds(fds)) ==>
              ClosesAreOfOpen(fds + [x])
  {
    var all := fds + [x];
    assert all[..|fds|] == fds;
    assert forall k | 0 <= k < |fds| :: all[..k] == fds[..k];
  }
}
