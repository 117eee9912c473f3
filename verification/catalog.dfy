/**
 * The catalog of parsed bundles kept in the persistent state: one entry per
 * bundle path, holding its output directory, the port its viewer was
 * given and when it was added. The state is saved after every change.
 *
 * Only the `parsed_bundles` part of the state dictionary is modelled; the
 * state file is a field holding what was last saved, so the saving rule
 * (save after an add, after a removal that removed something, never
 * otherwise) is part of each operation's contract.
 */
module Catalog {
  import opened Wrappers

  /** The port `get_next_available_port` starts from unless told otherwise. */
  const DefaultStartPort := 8001

  /** One catalog entry. `port` is `None` when no viewer port was assigned. */
  datatype BundleEntry = BundleEntry(outputPath: string, port: Option<int>, timestamp: string)

  /** The state file on disk: absent, or holding a state whose `parsed_bundles` may be missing. */
  datatype StateFile = NoFile | File(bundles: Option<map<string, BundleEntry>>)

  /** `state.get("parsed_bundles", {})` */
  function Bundles(b: Option<map<string, BundleEntry>>): map<string, BundleEntry> {
    b.GetOr(map[])
  }

  /** A port counts as used only when it is truthy: present and not 0. */
  predicate HasPort(e: BundleEntry) {
    e.port.Some? && e.port.value != 0
  }

  /** The ports held by entries of the catalog. */
  function UsedPorts(m: map<string, BundleEntry>): (r: set<int>)
    ensures forall p :: p in r <==> exists k :: k in m && HasPort(m[k]) && m[k].port.value == p
  {
    set k | k in m && HasPort(m[k]) :: m[k].port.value
  }

  /**
   * The catalog after `setdefault` and the assignment of `key`: the key
   * maps to the new entry, every other key keeps its entry, and no key is
   * added besides it.
   */
  function Added(b: Option<map<string, BundleEntry>>, key: string, e: BundleEntry): (r: map<string, BundleEntry>)
    ensures key in r && r[key] == e
    ensures forall k :: k in Bundles(b) && k != key ==> k in r && r[k] == Bundles(b)[k]
    ensures forall k :: k in r ==> k == key || k in Bundles(b)
  {
    Bundles(b)[key := e]
  }

  /**
   * The catalog after removing `key`: when the catalog exists and holds the
   * key, exactly that key is gone; otherwise nothing changes.
   */
  function Removed(b: Option<map<string, BundleEntry>>, key: string): (r: Option<map<string, BundleEntry>>)
    ensures b.Some? && key in b.value ==>
      r.Some? && key !in r.value
      && (forall k :: k in r.value <==> k in b.value && k != key)
      && (forall k :: k in r.value ==> r.value[k] == b.value[k])
    ensures !(b.Some? && key in b.value) ==> r == b
  {
    if b.Some? && key in b.value then Some(b.value - {key}) else b
  }

  /** Whether a removal changes the state, and so saves it. */
  predicate RemovalApplies(b: Option<map<string, BundleEntry>>, key: string) {
    b.Some? && key in b.value
  }

  /**
   * `while port in used_ports: port += 1`: the smallest port at or above
   * `start` that is not used.
   */
  method FirstFreePort(used: set<int>, start: int) returns (port: int)
    ensures port >= start && port !in used
    ensures forall p :: start <= p < port ==> p in used
  {
    port := start;
    while port in used
      invariant port >= start
      invariant forall p :: start <= p < port ==> p in used
      decreases |set p | p in used && p >= port|
    {
      ghost var before := set p | p in used && p >= port;
      ghost var after := set p | p in used && p >= port + 1;
      assert before == after + {port} && port !in after;
      port := port + 1;
    }
  }

  // ---------------------------------------------------------------------
  // Properties of the catalog functions

  /** Adding a new bundle and removing it again leaves the catalog as it was, apart from creating it. */
  lemma RemoveUndoesAdd(b: Option<map<string, BundleEntry>>, key: string, e: BundleEntry)
    requires key !in Bundles(b)
    ensures Removed(Some(Added(b, key, e)), key) == Some(Bundles(b))
  {
    assert Added(b, key, e) - {key} == Bundles(b);
  }

  /** Adding the same key twice keeps only the later entry. */
  lemma AddOverwrites(b: Option<map<string, BundleEntry>>, key: string, e1: BundleEntry, e2: BundleEntry)
    ensures Added(Some(Added(b, key, e1)), key, e2) == Added(b, key, e2)
  {
    assert Bundles(Some(Added(b, key, e1)))[key := e2] == Bundles(b)[key := e2];
  }

  /**
   * Two spellings of one bundle path that normalise to the same absolute
   * path share one entry: the second add replaces the first.
   */
  lemma SameFileOneEntry(b: Option<map<string, BundleEntry>>, p1: string, p2: string, abspath: string -> string,
                         e1: BundleEntry, e2: BundleEntry)
    requires abspath(p1) == abspath(p2)
    ensures Added(Some(Added(b, abspath(p1), e1)), abspath(p2), e2) == Added(b, abspath(p2), e2)
  {
    AddOverwrites(b, abspath(p2), e1, e2);
  }

  /** Removing twice is removing once. */
  lemma RemoveIdempotent(b: Option<map<string, BundleEntry>>, key: string)
    ensures Removed(Removed(b, key), key) == Removed(b, key)
  {
  }

  /** An entry added with a truthy port holds that port; other entries' ports are unaffected. */
  lemma UsedPortsAfterAdd(b: Option<map<string, BundleEntry>>, key: string, e: BundleEntry)
    ensures UsedPorts(Added(b, key, e)) == UsedPorts(Bundles(b) - {key}) + (if HasPort(e) then {e.port.value} else {})
  {
    var m := Added(b, key, e);
    var rest := Bundles(b) - {key};
    forall p ensures p in UsedPorts(m) <==> p in UsedPorts(rest) + (if HasPort(e) then {e.port.value} else {}) {
      if p in UsedPorts(rest) {
        var k :| k in rest && HasPort(rest[k]) && rest[k].port.value == p;
        assert k in m && m[k] == rest[k];
      }
      if p in UsedPorts(m) {
        var k :| k in m && HasPort(m[k]) && m[k].port.value == p;
        if k != key {
          assert k in rest && rest[k] == m[k];
        }
      }
      if HasPort(e) && p == e.port.value {
        assert m[key] == e;
      }
    }
  }

  /** Entries without a port, or with port 0, never block a port. */
  lemma FalsyPortsIgnored(m: map<string, BundleEntry>, key: string)
    requires key in m && !HasPort(m[key])
    ensures UsedPorts(m) == UsedPorts(m - {key})
  {
    var rest := m - {key};
    forall p | p in UsedPorts(m) ensures p in UsedPorts(rest) {
      var k :| k in m && HasPort(m[k]) && m[k].port.value == p;
      assert k != key && k in rest && rest[k] == m[k];
    }
    forall p | p in UsedPorts(rest) ensures p in UsedPorts(m) {
      var k :| k in rest && HasPort(rest[k]) && rest[k].port.value == p;
      assert k in m && m[k] == rest[k];
    }
  }

  // ---------------------------------------------------------------------
  // The state of `logviewer/state.py`

  class Catalog {
    /** `state.get("parsed_bundles")`: `None` while the key is missing. */
    var bundles: Option<map<string, BundleEntry>>
    /** The state file, as last saved. */
    var file: StateFile
    /** The backup copy made before each save. */
    var backup: StateFile

    constructor (bundles0: Option<map<string, BundleEntry>>, file0: StateFile, backup0: StateFile)
      ensures bundles == bundles0 && file == file0 && backup == backup0
    {
      bundles, file, backup := bundles0, file0, backup0;
    }

    /** `get_parsed_bundles`: the stored catalog, or an empty one when there is none. */
    function GetParsedBundles(): (r: map<string, BundleEntry>)
      reads this
      ensures bundles.Some? ==> r == bundles.value
      ensures bundles.None? ==> r == map[]
    {
      Bundles(bundles)
    }

    /** `save_state`: an existing state file is first copied to the backup, then the state is written. */
    method Save()
      modifies this
      ensures bundles == old(bundles)
      ensures file == File(bundles)
      ensures backup == if old(file).NoFile? then old(backup) else old(file)
    {
      if file != NoFile {
        backup := file;
      }
      file := File(bundles);
    }

    /**
     * `add_parsed_bundle`: the entry is stored under the normalised path
     * (`abspath` is `os.path.abspath`), replacing any earlier entry for it,
     * and the state is saved.
     */
    method AddParsedBundle(bundlePath: string, outputPath: string, port: Option<int>, now: string,
                           abspath: string -> string)
      modifies this
      ensures bundles == Some(Added(old(bundles), abspath(bundlePath), BundleEntry(outputPath, port, now)))
      ensures file == File(bundles)
      ensures backup == if old(file).NoFile? then old(backup) else old(file)
    {
      var key := abspath(bundlePath);
      var m := GetParsedBundles();
      bundles := Some(m[key := BundleEntry(outputPath, port, now)]);
      Save();
    }

    /**
     * `remove_parsed_bundle`: the entry under the normalised path is deleted
     * and the state saved, when there is one; otherwise nothing happens.
     */
    method RemoveParsedBundle(bundlePath: string, abspath: string -> string)
      modifies this
      ensures bundles == Removed(old(bundles), abspath(bundlePath))
      ensures RemovalApplies(old(bundles), abspath(bundlePath)) ==>
        file == File(bundles) && backup == (if old(file).NoFile? then old(backup) else old(file))
      ensures !RemovalApplies(old(bundles), abspath(bundlePath)) ==> file == old(file) && backup == old(backup)
    {
      var key := abspath(bundlePath);
      if bundles.Some? && key in bundles.value {
        bundles := Some(bundles.value - {key});
        Save();
      }
    }

    /** `get_next_available_port`: the smallest port from `start` (8001 by default) on that no entry holds. */
    method NextAvailablePort(start: int := DefaultStartPort) returns (port: int)
      ensures port >= start && port !in UsedPorts(GetParsedBundles())
      ensures forall p :: start <= p < port ==> p in UsedPorts(GetParsedBundles())
    {
      port := FirstFreePort(UsedPorts(GetParsedBundles()), start);
    }
  }
}
