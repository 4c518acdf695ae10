/** The world the scheduled tasks act on: the shared server object, with its
    empty-since timestamp, and the record of every effect the tasks have on the
    outside (chat messages, sleeps, server starts and restarts, in-game cleanup).
    Queries the tasks make of the outside are the fields of a `Probe`. */
module Outside {

  datatype Option<T> = None | Some(value: T) {
    function GetOr(default: T): T {
      match this
      case Some(v) => v
      case None => default
    }
  }

  /** One observable effect on the outside world, in the order it happened. */
  datatype Effect =
    | WarningSent(description: string, minutes: int)   // send_message of a pre-task warning
    | MessageSent(text: string)                        // send_message(..., discord_msg=False)
    | Slept(seconds: int)                              // time.sleep
    | ServerStarted                                    // server.start()
    | ServerRestarted(reason: string, skipWarnings: bool) // server.restart(reason, skip_warnings)
    | WildDinosDestroyed                               // destroy_wild_dinos()

  /** The answers the outside gives to the queries of one tick:
      get_active_players(), does_server_need_update() and is_server_running(). */
  datatype Probe = Probe(activePlayers: int, needsUpdate: bool, serverRunning: bool)

  /** True when the effect starts or restarts the server process. */
  predicate IsServerLaunch(e: Effect) {
    e.ServerStarted? || e.ServerRestarted?
  }

  /** The server object shared by reference between all tasks. */
  class Server {
    /** When the server was first seen without players; written only by the stale-server task. */
    var firstEmpty: Option<int>
    /** Every effect the tasks had on the outside world, oldest first. */
    var effects: seq<Effect>

    constructor ()
      ensures firstEmpty == None && effects == []
    {
      firstEmpty := None;
      effects := [];
    }

    /** Appends one effect to the record. */
    method Record(e: Effect)
      modifies this`effects
      ensures effects == old(effects) + [e]
    {
      effects := effects + [e];
    }
  }
}
