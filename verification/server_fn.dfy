/**
 * The Dioxus server-function registry: a process-wide table from a route URL
 * to the server function registered there (an opaque callable handle plus the
 * encoding its arguments and results use), guarded by a reader/writer lock.
 *
 * The lock is modelled by the `poisoned` flag alone: once a writer has
 * panicked while holding it, `register` fails with `Poisoned` and every
 * reader degrades to "nothing found".
 */
module ServerFnRegistry {
  import opened Wrappers

  /** One registered server function: the trait object and its encoding. */
  datatype ServerFunction<H, E> = ServerFunction(traitObj: H, encoding: E)

  /** The two ways registration can fail. */
  datatype ServerRegistrationFnError =
    | AlreadyRegistered(url: string)   // names the URL that was registered twice
    | Poisoned(detail: string)         // the lock's own description of the failure

  /** What a poisoned lock reports; its wording is the lock's, not the registry's. */
  const LockErrorText: string := "poisoned lock: another task failed inside"

  /** One insertion into the map, as `register` performs it. */
  datatype Insert<H, E> = Insert(url: string, record: ServerFunction<H, E>)

  /** The map that a sequence of insertions, applied in order, leaves behind. */
  ghost function Replay<H, E>(log: seq<Insert<H, E>>): map<string, ServerFunction<H, E>>
    decreases |log|
  {
    if log == [] then map[]
    else
      var last := log[|log| - 1];
      Replay(log[..|log| - 1])[last.url := last.record]
  }

  /** Every URL some insertion in `log` used. */
  ghost function Urls<H, E>(log: seq<Insert<H, E>>): set<string>
  {
    set ins | ins in log :: ins.url
  }

  /** Position `i` holds the latest insertion for `url`: none after it uses `url`. */
  ghost predicate IsLatest<H, E>(log: seq<Insert<H, E>>, url: string, i: int)
  {
    0 <= i < |log| && log[i].url == url &&
    forall j :: i < j < |log| ==> log[j].url != url
  }

  /** The keys of the replayed map are exactly the URLs ever inserted. */
  lemma {:induction false} ReplayKeys<H, E>(log: seq<Insert<H, E>>)
    ensures Replay(log).Keys == Urls(log)
  {
    if log != [] {
      var init := log[..|log| - 1];
      ReplayKeys(init);
      assert log == init + [log[|log| - 1]];
      assert Urls(log) == Urls(init) + {log[|log| - 1].url};
    }
  }

  /** The replayed map holds, for each URL, the record of its latest insertion. */
  lemma {:induction false} ReplayLatest<H, E>(log: seq<Insert<H, E>>, url: string, i: int)
    requires IsLatest(log, url, i)
    ensures url in Replay(log) && Replay(log)[url] == log[i].record
  {
    if i < |log| - 1 {
      var init := log[..|log| - 1];
      assert IsLatest(init, url, i);
      ReplayLatest(init, url, i);
    }
  }

  /** `ReplayLatest` for every position at once. */
  lemma {:induction false} ReplayLatestAll<H, E>(log: seq<Insert<H, E>>, url: string)
    ensures forall i :: IsLatest(log, url, i) ==> Lookup(Replay(log), url) == Some(log[i].record)
  {
    forall i | IsLatest(log, url, i)
      ensures Lookup(Replay(log), url) == Some(log[i].record)
    {
      ReplayLatest(log, url, i);
    }
  }

  /**
   * Insertions only add keys, over any number of later registrations: the
   * key set of the whole history contains that of every prefix. `Register`
   * states the same for one step; this is its closure over whole runs.
   */
  lemma KeysNeverRemoved<H, E>(log: seq<Insert<H, E>>, later: seq<Insert<H, E>>)
    ensures Replay(log).Keys <= Replay(log + later).Keys
  {
    ReplayKeys(log);
    ReplayKeys(log + later);
    forall u | u in Urls(log) ensures u in Urls(log + later) {
      var ins :| ins in log && ins.url == u;
      assert ins in log + later;
    }
  }

  /** No element of `s` occurs twice. */
  ghost predicate NoDuplicates<T>(s: seq<T>)
  {
    forall i, j :: 0 <= i < j < |s| ==> s[i] != s[j]
  }

  /**
   * `DioxusServerFnRegistry` together with the lazily created map behind
   * its lock. `log` records every insertion the map has received, so that
   * lookups can be stated against the history of registrations.
   */
  class Registry<H, E> {
    var fns: map<string, ServerFunction<H, E>>
    var poisoned: bool
    ghost var log: seq<Insert<H, E>>

    ghost predicate Valid()
      reads this
    {
      fns == Replay(log)
    }

    /** The lazily created, initially empty map behind a healthy lock. */
    constructor ()
      ensures Valid() && fns == map[] && !poisoned && log == []
    {
      fns := map[];
      poisoned := false;
      log := [];
    }

    /**
     * A writer panics while holding the lock: the lock stays poisoned from
     * then on, and the map keeps what it held.
     */
    method Poison()
      requires Valid()
      modifies this
      ensures Valid() && poisoned
      ensures fns == old(fns) && log == old(log)
    {
      poisoned := true;
    }

    /**
     * `register`: insert unconditionally, then report whether a record was
     * already there. A duplicate therefore replaces the earlier record and
     * still returns `AlreadyRegistered`. A poisoned lock stops the call
     * before the insertion.
     */
    method Register(url: string, serverFunction: H, encoding: E)
      returns (r: Result<(), ServerRegistrationFnError>)
      requires Valid()
      modifies this
      ensures Valid() && poisoned == old(poisoned)
      ensures old(poisoned) ==> r == Err(Poisoned(LockErrorText)) && fns == old(fns) && log == old(log)
      ensures !old(poisoned) ==>
        && fns == old(fns)[url := ServerFunction(serverFunction, encoding)]
        && log == old(log) + [Insert(url, ServerFunction(serverFunction, encoding))]
        && r == (if url in old(fns) then Err(AlreadyRegistered(url)) else Ok(()))
        && Get(url) == Some(ServerFunction(serverFunction, encoding))
      ensures forall u :: u != url ==> Get(u) == old(Get(u))
      ensures old(fns).Keys <= fns.Keys
    {
      if poisoned {
        return Err(Poisoned(LockErrorText));
      }
      var record := ServerFunction(serverFunction, encoding);
      var prev := Lookup(fns, url);
      fns := fns[url := record];
      log := log + [Insert(url, record)];
      match prev {
        case Some(_) => r := Err(AlreadyRegistered(url));
        case None => r := Ok(());
      }
    }

    /**
     * `get`: the record registered at `url`. It is the one the latest
     * registration for `url` supplied, and there is none when `url` was never
     * registered or the lock is poisoned.
     */
    function Get(url: string): (r: Option<ServerFunction<H, E>>)
      reads this
      requires Valid()
      ensures poisoned ==> r == None
      ensures !poisoned ==> (r.Some? <==> url in Urls(log))
      ensures !poisoned ==> forall i :: IsLatest(log, url, i) ==> r == Some(log[i].record)
    {
      ReplayKeys(log);
      ReplayLatestAll(log, url);
      if poisoned then None else Lookup(fns, url)
    }

    /** `get_trait_obj`: the handle of what `Get` finds, and nothing when it finds nothing. */
    function GetTraitObj(url: string): (r: Option<H>)
      reads this
      requires Valid()
      ensures r.Some? <==> Get(url).Some?
      ensures r.Some? ==> r.value == Get(url).value.traitObj
    {
      if !poisoned && url in fns then Some(fns[url].traitObj) else None
    }

    /** `get_encoding`: the encoding of what `Get` finds, and nothing when it finds nothing. */
    function GetEncoding(url: string): (r: Option<E>)
      reads this
      requires Valid()
      ensures r.Some? <==> Get(url).Some?
      ensures r.Some? ==> r.value == Get(url).value.encoding
    {
      if !poisoned && url in fns then Some(fns[url].encoding) else None
    }

    /**
     * `paths_registered`: every key of the map exactly once, in an order the
     * map's iteration chooses; empty when the lock is poisoned.
     */
    method PathsRegistered() returns (paths: seq<string>)
      requires Valid()
      ensures poisoned ==> paths == []
      ensures !poisoned ==> NoDuplicates(paths) && |paths| == |fns|
      ensures !poisoned ==> forall u :: u in paths <==> Get(u).Some?
    {
      if poisoned {
        return [];
      }
      var remaining := fns.Keys;
      paths := [];
      while remaining != {}
        invariant remaining <= fns.Keys
        invariant forall u :: u in paths <==> u in fns && u !in remaining
        invariant NoDuplicates(paths)
        invariant |paths| + |remaining| == |fns|
        decreases remaining
      {
        var u :| u in remaining;
        paths := paths + [u];
        remaining := remaining - {u};
      }
    }
  }

  /**
   * Registering the same URL twice: the first call succeeds, the second
   * reports `AlreadyRegistered` for that URL, and lookups now return the
   * second record.
   */
  method DuplicateRegistration<H, E>(url: string, h1: H, e1: E, h2: H, e2: E)
    returns (first: Result<(), ServerRegistrationFnError>,
             second: Result<(), ServerRegistrationFnError>,
             found: Option<ServerFunction<H, E>>)
    ensures first == Ok(())
    ensures second == Err(AlreadyRegistered(url))
    ensures found == Some(ServerFunction(h2, e2))
  {
    var registry := new Registry<H, E>();
    first := registry.Register(url, h1, e1);
    second := registry.Register(url, h2, e2);
    found := registry.Get(url);
  }

  /**
   * On a poisoned registry, registration fails with `Poisoned` and leaves
   * nothing behind: every reader finds nothing and no path is listed.
   */
  method PoisonedRegistry<H, E>(url: string, h: H, e: E)
    returns (result: Result<(), ServerRegistrationFnError>,
             found: Option<ServerFunction<H, E>>,
             handle: Option<H>,
             encoding: Option<E>,
             paths: seq<string>)
    ensures result == Err(Poisoned(LockErrorText))
    ensures found == None && handle == None && encoding == None
    ensures paths == []
  {
    var registry := new Registry<H, E>();
    registry.Poison();
    result := registry.Register(url, h, e);
    found := registry.Get(url);
    handle := registry.GetTraitObj(url);
    encoding := registry.GetEncoding(url);
    paths := registry.PathsRegistered();
  }
}
