/**
 * The older catalog of `state.py`: the same operations as the catalog of
 * `logviewer/state.py`, but bundles are keyed by the path exactly as
 * given, and saving writes the state file without keeping a backup.
 */
module LegacyCatalog {
  import opened Wrappers
  import opened Catalog

  class LegacyCatalog {
    /** `state.get("parsed_bundles")`: `None` while the key is missing. */
    var bundles: Option<map<string, BundleEntry>>
    /** The state file, as last saved. */
    var file: StateFile

    constructor (bundles0: Option<map<string, BundleEntry>>, file0: StateFile)
      ensures bundles == bundles0 && file == file0
    {
      bundles, file := bundles0, file0;
    }

    /** `get_parsed_bundles`: the stored catalog, or an empty one when there is none. */
    function GetParsedBundles(): (r: map<string, BundleEntry>)
      reads this
      ensures bundles.Some? ==> r == bundles.value
      ensures bundles.None? ==> r == map[]
    {
      Bundles(bundles)
    }

    /** `add_parsed_bundle`: the entry is stored under the raw path, replacing any earlier entry for it, and saved. */
    method AddParsedBundle(bundlePath: string, outputPath: string, port: Option<int>, now: string)
      modifies this
      ensures bundles == Some(Added(old(bundles), bundlePath, BundleEntry(outputPath, port, now)))
      ensures file == File(bundles)
    {
      var m := GetParsedBundles();
      bundles := Some(m[bundlePath := BundleEntry(outputPath, port, now)]);
      file := File(bundles);
    }

    /** `remove_parsed_bundle`: the entry under the raw path is deleted and saved when present; otherwise nothing happens. */
    method RemoveParsedBundle(bundlePath: string)
      modifies this
      ensures bundles == Removed(old(bundles), bundlePath)
      ensures file == if RemovalApplies(old(bundles), bundlePath) then File(bundles) else old(file)
    {
      if bundles.Some? && bundlePath in bundles.value {
        bundles := Some(bundles.value - {bundlePath});
        file := File(bundles);
      }
    }

    /** `get_next_available_port`: the smallest port from `start` (8001 by default) on that no entry holds. */
    method NextAvailablePort(start: int := DefaultStartPort) returns (port: int)
      ensures port >= start && port !in UsedPorts(GetParsedBundles())
      ensures forall p :: start <= p < port ==> p in UsedPorts(GetParsedBundles())
    {
      port := FirstFreePort(UsedPorts(GetParsedBundles()), start);
    }
  }

  /**
   * Without normalisation, two different spellings are two entries even
   * when they name the same file (`bundle.tar.gz` and `./bundle.tar.gz`):
   * both are kept, each with its own entry.
   */
  lemma RawKeysAreDistinct(b: Option<map<string, BundleEntry>>, p1: string, p2: string, e1: BundleEntry, e2: BundleEntry)
    requires p1 != p2
    ensures var m := Added(Some(Added(b, p1, e1)), p2, e2);
      && p1 in m && m[p1] == e1
      && p2 in m && m[p2] == e2
      && forall k :: k in m <==> k in Bundles(b) || k == p1 || k == p2
  {
  }
}
