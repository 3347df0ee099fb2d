/** The message log of lib/log.py. The log lives in the global configuration
    store of lib/variables.py, modelled as the `vdict` map of a `Variables`
    object that is passed in. */
module Log {

  /** The values the configuration store holds: texts, integers and flags. */
  datatype Value = Str(s: string) | Num(n: int) | Flag(b: bool)

  type Store = map<string, Value>

  /** The global store of lib/variables.py. */
  class Variables {
    var vdict: Store

    constructor (initial: Store)
      ensures vdict == initial
    {
      vdict := initial;
    }
  }

  /** The store after a call to log_message, and whether the call returned
      normally (false: it raised). */
  datatype Logged = Logged(store: Store, ok: bool)

  /** True when the store already records `s` as the last message. */
  predicate IsLastMessage(m: Store, s: string) {
    "last_log_message" in m && m["last_log_message"] == Str(s)
  }

  /** What log_message does to the store.
      A repeat of the last message changes nothing. Otherwise the "verbose"
      entry is read (KeyError when it is missing, before anything changes),
      the message becomes the last message, and it is put in front of the
      log, separated by a newline; adding a text to a log entry that is not a
      text raises TypeError after the last message has been recorded. */
  function LogStep(m: Store, s: string): (r: Logged)
    ensures IsLastMessage(m, s) ==> r == Logged(m, true)
    ensures !IsLastMessage(m, s) && "verbose" !in m ==> r == Logged(m, false)
    ensures !IsLastMessage(m, s) && "verbose" in m ==>
      r.store.Keys == m.Keys + {"last_log_message", "log"} &&
      r.store["last_log_message"] == Str(s) &&
      ("log" !in m ==> r.ok && r.store["log"] == Str(s)) &&
      ("log" in m && m["log"].Str? ==> r.ok && r.store["log"] == Str(s + "\n" + m["log"].s)) &&
      ("log" in m && !m["log"].Str? ==> !r.ok && r.store["log"] == m["log"])
    ensures forall k :: k in m && k != "last_log_message" && k != "log" ==> k in r.store && r.store[k] == m[k]
    ensures r.ok ==> IsLastMessage(r.store, s)
  {
    if IsLastMessage(m, s) then Logged(m, true)
    else if "verbose" !in m then Logged(m, false)
    else
      var m1 := m["last_log_message" := Str(s)];
      if "log" !in m then Logged(m1["log" := Str(s)], true)
      else if m["log"].Str? then Logged(m1["log" := Str(s + "\n" + m["log"].s)], true)
      else Logged(m1, false)
  }

  /** log_message. The verbose echo to the console is output only and is left out. */
  method LogMessage(vars: Variables, s: string) returns (ok: bool)
    modifies vars
    ensures Logged(vars.vdict, ok) == LogStep(old(vars.vdict), s)
  {
    if "last_log_message" in vars.vdict && vars.vdict["last_log_message"] == Str(s) {
      return true;
    }
    if "verbose" !in vars.vdict {
      return false;
    }
    vars.vdict := vars.vdict["last_log_message" := Str(s)];
    if "log" in vars.vdict {
      var old_log := vars.vdict["log"];
      if !old_log.Str? {
        return false;
      }
      vars.vdict := vars.vdict["log" := Str(s + "\n" + old_log.s)];
    } else {
      vars.vdict := vars.vdict["log" := Str(s)];
    }
    return true;
  }

  /** error_message: a log_message of the text with "Error: " in front. */
  method ErrorMessage(vars: Variables, s: string) returns (ok: bool)
    modifies vars
    ensures Logged(vars.vdict, ok) == LogStep(old(vars.vdict), "Error: " + s)
  {
    ok := LogMessage(vars, "Error: " + s);
  }

  /** Logging the same message twice in a row leaves the store as logging it
      once does, whether or not the first call raised. */
  lemma LogTwiceIsOnce(m: Store, s: string)
    ensures LogStep(LogStep(m, s).store, s).store == LogStep(m, s).store
  {
  }

  /** The stores after logging each message of `msgs` in turn. */
  function LogAll(m: Store, msgs: seq<string>): Store {
    if msgs == [] then m else LogStep(LogAll(m, msgs[..|msgs| - 1]), msgs[|msgs| - 1]).store
  }

  /** The messages that reach the log: `msgs` with every direct repeat dropped. */
  function Collapse(msgs: seq<string>): (r: seq<string>)
    ensures |r| <= |msgs|
    ensures msgs != [] ==> r != [] && r[|r| - 1] == msgs[|msgs| - 1]
  {
    if msgs == [] then []
    else
      var p := Collapse(msgs[..|msgs| - 1]);
      if p != [] && p[|p| - 1] == msgs[|msgs| - 1] then p else p + [msgs[|msgs| - 1]]
  }

  /** The log text of a list of messages: the newest first, one per line. */
  function NewestFirst(msgs: seq<string>): string
    requires msgs != []
  {
    if |msgs| == 1 then msgs[0] else msgs[|msgs| - 1] + "\n" + NewestFirst(msgs[..|msgs| - 1])
  }

  /** From a store with "verbose" set and no log yet, logging `msgs` leaves the
      last of them as the last message and a log holding every message that is
      not a direct repeat of its predecessor, newest first. */
  lemma {:induction false} LogIsNewestFirst(m: Store, msgs: seq<string>)
    requires "verbose" in m && "log" !in m && "last_log_message" !in m
    requires msgs != []
    ensures var r := LogAll(m, msgs);
      "verbose" in r && IsLastMessage(r, msgs[|msgs| - 1]) &&
      "log" in r && r["log"] == Str(NewestFirst(Collapse(msgs)))
  {
    var p := msgs[..|msgs| - 1];
    var x := msgs[|msgs| - 1];
    if p == [] {
      assert Collapse(msgs) == [x] by {
        assert msgs[..|msgs| - 1] == [];
      }
      assert LogAll(m, p) == m;
    } else {
      LogIsNewestFirst(m, p);
      var before := LogAll(m, p);
      assert p[|p| - 1] == msgs[|msgs| - 2];
      var c := Collapse(p);
      if c[|c| - 1] == x {
        assert IsLastMessage(before, x);
      } else {
        assert Collapse(msgs) == c + [x];
        assert (c + [x])[..|c + [x]| - 1] == c;
      }
    }
  }
}
