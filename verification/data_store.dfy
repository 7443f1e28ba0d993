/**
  The data store's validators and lookups, with file access abstracted: the
  header checks of the two index tables, the OBS_ID consistency check,
  `obs_list` and its skip-missing mode, and how `from_config` finds the
  index files.
 */
module DataStoreChecks {
  import opened Wrappers

  const DEFAULT_HDU_TABLE: string := "hdu-index.fits.gz"
  const DEFAULT_OBS_TABLE: string := "obs-index.fits.gz"

  /** A table header: keyword to value. */
  type Meta = map<string, string>

  /** A record a checker yields: level, the index the problem is in (if
      named) and a message. */
  datatype Record = Record(level: string, hdu: Option<string>, msg: string)

  /** `meta.get(key, '')`. */
  function Get(meta: Meta, key: string): string {
    if key in meta then meta[key] else ""
  }

  const MSG_CLAS1: string := "Invalid header key. Must have HDUCLAS1=INDEX"

  /** The header checks of an index table named `hdu`: one error if
      HDUCLAS1 is not INDEX, then one if HDUCLAS2 is not `clas2`; a missing
      keyword reads as the empty string. */
  function HeaderErrors(meta: Meta, hdu: string, clas2: string): (rs: seq<Record>)
    ensures |rs| <= 2
    ensures rs == [] <==> Get(meta, "HDUCLAS1") == "INDEX" && Get(meta, "HDUCLAS2") == clas2
    ensures forall r :: r in rs ==> r.level == "error" && r.hdu == Some(hdu)
    ensures Get(meta, "HDUCLAS1") != "INDEX" ==> rs[0].msg == MSG_CLAS1
    ensures Get(meta, "HDUCLAS2") != clas2 ==> rs[|rs| - 1].msg == "Invalid header key. Must have HDUCLAS2=" + clas2
    ensures |rs| == (if Get(meta, "HDUCLAS1") != "INDEX" then 1 else 0) + (if Get(meta, "HDUCLAS2") != clas2 then 1 else 0)
  {
    var msg2 := "Invalid header key. Must have HDUCLAS2=" + clas2;
    (if Get(meta, "HDUCLAS1") != "INDEX" then [Record("error", Some(hdu), MSG_CLAS1)] else [])
    + (if Get(meta, "HDUCLAS2") != clas2 then [Record("error", Some(hdu), msg2)] else [])
  }

  /** `check_obs_table`. */
  function CheckObsTable(meta: Meta): (rs: seq<Record>)
    ensures |rs| <= 2
    ensures rs == [] <==> Get(meta, "HDUCLAS1") == "INDEX" && Get(meta, "HDUCLAS2") == "OBS"
    ensures forall r :: r in rs ==> r.level == "error" && r.hdu == Some("obs-index")
  {
    HeaderErrors(meta, "obs-index", "OBS")
  }

  /** An HDU the index table points to: where, and whether it was found
      (`get_hdu` raises KeyError when not). */
  datatype Lookup = Lookup(location: string, found: bool)

  /** One error per HDU not found, in table order. */
  function LookupErrors(lookups: seq<Lookup>): (rs: seq<Record>)
    ensures |rs| <= |lookups|
    ensures rs == [] <==> forall k :: 0 <= k < |lookups| ==> lookups[k].found
    ensures forall r :: r in rs ==> r.level == "error" && r.hdu.None?
  {
    if lookups == [] then []
    else
      var rest := LookupErrors(lookups[1..]);
      assert forall k :: 1 <= k < |lookups| ==> lookups[1..][k - 1] == lookups[k];
      if lookups[0].found then rest
      else [Record("error", None, "HDU not found: " + lookups[0].location)] + rest
  }

  /** `check_hdu_table`: the header errors, then the lookup errors. */
  function CheckHduTable(meta: Meta, lookups: seq<Lookup>): (rs: seq<Record>)
    ensures |rs| <= 2 + |lookups|
    ensures rs == [] <==>
              Get(meta, "HDUCLAS1") == "INDEX" && Get(meta, "HDUCLAS2") == "HDU" &&
              forall k :: 0 <= k < |lookups| ==> lookups[k].found
    ensures var n := |HeaderErrors(meta, "hdu-index", "HDU")|;
            && n <= |rs|
            && (forall k :: 0 <= k < n ==> rs[k].hdu == Some("hdu-index"))
            && (forall k :: n <= k < |rs| ==> rs[k].hdu.None?)
  {
    HeaderErrors(meta, "hdu-index", "HDU") + LookupErrors(lookups)
  }

  /** The lookups are checked one by one: the errors of a concatenation are
      those of its first part followed by those of its second. */
  lemma {:induction false} LookupErrorsConcat(a: seq<Lookup>, b: seq<Lookup>)
    ensures LookupErrors(a + b) == LookupErrors(a) + LookupErrors(b)
    decreases |a|
  {
    if a != [] {
      assert (a + b)[1..] == a[1..] + b;
      LookupErrorsConcat(a[1..], b);
    } else {
      assert a + b == b;
    }
  }

  /** One lookup gives no record when its HDU is found, and otherwise one
      error naming its location. */
  lemma LookupErrorsOne(l: Lookup)
    ensures LookupErrors([l]) == if l.found then [] else [Record("error", None, "HDU not found: " + l.location)]
  {
    assert [l][1..] == [];
  }

  /** More rows in the HDU index only append their lookup errors: the
      records already reported, header errors included, stay as they were. */
  lemma CheckHduTableAppends(meta: Meta, a: seq<Lookup>, b: seq<Lookup>)
    ensures CheckHduTable(meta, a + b) == CheckHduTable(meta, a) + LookupErrors(b)
  {
    LookupErrorsConcat(a, b);
  }

  /** The elements of a column, without order or repetition. */
  function Elements(column: seq<int>): set<int> {
    set x | x in column
  }

  /** Two columns have the same elements exactly when every OBS_ID in one
      is in the other. */
  lemma SameElements(a: seq<int>, b: seq<int>)
    ensures Elements(a) == Elements(b) <==> forall x :: x in a <==> x in b
  {
    if forall x :: x in a <==> x in b {
      assert forall x :: x in Elements(a) <==> x in Elements(b);
    } else {
      var x :| (x in a) != (x in b);
      assert (x in Elements(a)) != (x in Elements(b));
    }
  }

  /** `check_consistency`: one error exactly when some OBS_ID is in one
      table and not the other. */
  function CheckConsistency(obsIds: seq<int>, hduIds: seq<int>): (rs: seq<Record>)
    ensures |rs| <= 1
    ensures rs == [] <==> forall x :: x in obsIds <==> x in hduIds
    ensures forall r :: r in rs ==> r.level == "error" && r.hdu.None?
  {
    SameElements(obsIds, hduIds);
    if Elements(obsIds) == Elements(hduIds) then []
    else [Record("error", None, "Inconsistent OBS_ID in obs and HDU index tables")]
  }

  /** Reordering or repeating OBS_IDs in either table does not change the
      verdict. */
  lemma ConsistencyIgnoresOrder(obsIds: seq<int>, obsIds': seq<int>, hduIds: seq<int>, hduIds': seq<int>)
    requires forall x :: x in obsIds <==> x in obsIds'
    requires forall x :: x in hduIds <==> x in hduIds'
    ensures CheckConsistency(obsIds, hduIds) == CheckConsistency(obsIds', hduIds')
  {
    SameElements(obsIds, obsIds');
    SameElements(hduIds, hduIds');
  }

  /** An observation of the store. */
  datatype Observation = Observation(obsId: int)

  /** The ValueError `obs_list` catches: the observation of this id cannot be
      made, because the id is not an integer or the store does not hold it. */
  datatype ObsError = ObsValueError(id: string)

  /** `self.obs(id)`. `lookup(id)` is the OBS_ID of the observation when
      `obs(id)` succeeds (`int(id)` and the store's lookup), None when it
      raises ValueError. */
  function Obs(id: string, lookup: string -> Option<int>): (r: Result<Observation, ObsError>)
    ensures r.Success? <==> lookup(id).Some?
    ensures r.Success? ==> r.value.obsId == lookup(id).value
    ensures r.Failure? ==> r.error == ObsValueError(id)
  {
    if lookup(id).None? then Failure(ObsValueError(id)) else Success(Observation(lookup(id).value))
  }

  /** The observations of the ids that can be opened, in input order. */
  function Available(ids: seq<string>, lookup: string -> Option<int>): (obs: seq<Observation>)
    ensures |obs| <= |ids|
    ensures |obs| == |ids| <==> forall k :: 0 <= k < |ids| ==> lookup(ids[k]).Some?
  {
    if ids == [] then []
    else
      var rest := Available(ids[1..], lookup);
      assert forall k :: 1 <= k < |ids| ==> ids[1..][k - 1] == ids[k];
      if lookup(ids[0]).None? then rest else [Observation(lookup(ids[0]).value)] + rest
  }

  /** Exactly the observations of the ids that can be opened are in the
      list: each one comes from such an id, and each such id's is there. */
  lemma {:induction false} AvailableMembers(ids: seq<string>, lookup: string -> Option<int>)
    ensures forall o :: o in Available(ids, lookup) ==> exists k :: 0 <= k < |ids| && lookup(ids[k]) == Some(o.obsId)
    ensures forall k :: 0 <= k < |ids| && lookup(ids[k]).Some? ==> Observation(lookup(ids[k]).value) in Available(ids, lookup)
  {
    if ids != [] {
      AvailableMembers(ids[1..], lookup);
      assert forall k :: 1 <= k < |ids| ==> ids[1..][k - 1] == ids[k];
    }
  }

  /** Skipping works id by id: the observations of a concatenation are those
      of its first part followed by those of its second, so the ids kept
      stay in input order and only the failing ones are dropped. */
  lemma {:induction false} AvailableConcat(a: seq<string>, b: seq<string>, lookup: string -> Option<int>)
    ensures Available(a + b, lookup) == Available(a, lookup) + Available(b, lookup)
    decreases |a|
  {
    if a != [] {
      assert (a + b)[1..] == a[1..] + b;
      AvailableConcat(a[1..], b, lookup);
    } else {
      assert a + b == b;
    }
  }

  /** One id contributes its observation when it can be opened, nothing otherwise. */
  lemma AvailableOne(id: string, lookup: string -> Option<int>)
    ensures Available([id], lookup) == if lookup(id).Some? then [Observation(lookup(id).value)] else []
  {
    assert [id][1..] == [];
  }

  /** Available over a suffix, peeled by one id. */
  lemma AvailableStep(ids: seq<string>, k: nat, lookup: string -> Option<int>)
    requires k < |ids|
    ensures Available(ids[k..], lookup) ==
            (if lookup(ids[k]).Some? then [Observation(lookup(ids[k]).value)] else []) + Available(ids[k + 1..], lookup)
  {
    assert ids[k..][0] == ids[k] && ids[k..][1..] == ids[k + 1..];
  }

  /** The first id that cannot be opened. */
  function FirstUnreadable(ids: seq<string>, lookup: string -> Option<int>): (r: Option<nat>)
    ensures r.Some? <==> exists k :: 0 <= k < |ids| && lookup(ids[k]).None?
    ensures r.Some? ==> r.value < |ids| && lookup(ids[r.value]).None? &&
                        forall k :: 0 <= k < r.value ==> lookup(ids[k]).Some?
  {
    if ids == [] then None
    else if lookup(ids[0]).None? then Some(0)
    else
      var rest := FirstUnreadable(ids[1..], lookup);
      assert forall k :: 1 <= k < |ids| ==> ids[1..][k - 1] == ids[k];
      if rest.None? then None else Some(rest.value + 1)
  }

  /** The observations of a longer prefix are those of the shorter one and
      the next id's, if it can be opened. */
  lemma PrefixStep(ids: seq<string>, k: nat, lookup: string -> Option<int>)
    requires k < |ids|
    ensures Available(ids[..k + 1], lookup) ==
            Available(ids[..k], lookup) + (if lookup(ids[k]).Some? then [Observation(lookup(ids[k]).value)] else [])
  {
    assert ids[..k + 1] == ids[..k] + [ids[k]];
    AvailableConcat(ids[..k], [ids[k]], lookup);
    AvailableOne(ids[k], lookup);
  }

  /** The `obs_list` loop keeps the observation of an id it can open. */
  lemma KeepStep(ids: seq<string>, skipMissing: bool, lookup: string -> Option<int>, obslist: seq<Observation>, k: nat)
    requires k < |ids| && lookup(ids[k]).Some?
    requires obslist == Available(ids[..k], lookup)
    requires !skipMissing ==> forall t :: 0 <= t < k ==> lookup(ids[t]).Some?
    ensures obslist + [Observation(lookup(ids[k]).value)] == Available(ids[..k + 1], lookup)
    ensures !skipMissing ==> forall t :: 0 <= t < k + 1 ==> lookup(ids[t]).Some?
  {
    PrefixStep(ids, k, lookup);
  }

  /** With `skipMissing` the `obs_list` loop passes over an id it cannot open. */
  lemma SkipStep(ids: seq<string>, lookup: string -> Option<int>, obslist: seq<Observation>, k: nat)
    requires k < |ids| && lookup(ids[k]).None?
    requires obslist == Available(ids[..k], lookup)
    ensures obslist == Available(ids[..k + 1], lookup)
  {
    PrefixStep(ids, k, lookup);
  }

  /** An id that cannot be opened after ids that all can is the first unreadable one. */
  lemma FirstUnreadableAt(ids: seq<string>, k: nat, lookup: string -> Option<int>)
    requires k < |ids| && lookup(ids[k]).None?
    requires forall t :: 0 <= t < k ==> lookup(ids[t]).Some?
    ensures FirstUnreadable(ids, lookup) == Some(k)
  {
  }

  /** When every id can be opened, every id yields an observation. */
  lemma AllAvailable(ids: seq<string>, lookup: string -> Option<int>)
    requires forall t :: 0 <= t < |ids| ==> lookup(ids[t]).Some?
    ensures |Available(ids, lookup)| == |ids|
  {
  }

  /** The loop of `obs_list`: it reads the ids in order, keeping the
      observations it can open, and stops at the first id it cannot open
      unless `skipMissing` is set. `k` is where it stopped. */
  method ReadObservations(ids: seq<string>, skipMissing: bool, lookup: string -> Option<int>)
    returns (obslist: seq<Observation>, k: nat)
    ensures k <= |ids|
    ensures obslist == Available(ids[..k], lookup)
    ensures !skipMissing ==> forall t :: 0 <= t < k ==> lookup(ids[t]).Some?
    ensures k < |ids| ==> !skipMissing && lookup(ids[k]).None?
  {
    obslist := [];
    k := 0;
    while k < |ids|
      invariant 0 <= k <= |ids|
      invariant obslist == Available(ids[..k], lookup)
      invariant !skipMissing ==> forall t :: 0 <= t < k ==> lookup(ids[t]).Some?
    {
      var obs := Obs(ids[k], lookup);
      if obs.Failure? {
        if skipMissing {
          SkipStep(ids, lookup, obslist, k);
          k := k + 1;
          continue;
        } else {
          return;
        }
      }
      KeepStep(ids, skipMissing, lookup, obslist, k);
      obslist := obslist + [obs.value];
      k := k + 1;
    }
  }

  /** `obs_list`: without `skipMissing` the first ValueError propagates;
      with it, ids whose observation cannot be opened are skipped. What is
      returned are the observations of the other ids, in input order. */
  method ObsList(ids: seq<string>, skipMissing: bool, lookup: string -> Option<int>)
    returns (r: Result<seq<Observation>, ObsError>)
    ensures skipMissing ==> r == Success(Available(ids, lookup))
    ensures !skipMissing && FirstUnreadable(ids, lookup).Some? ==>
              r == Failure(ObsValueError(ids[FirstUnreadable(ids, lookup).value]))
    ensures !skipMissing && FirstUnreadable(ids, lookup).None? ==>
              r == Success(Available(ids, lookup)) && |r.value| == |ids|
  {
    var obslist, k := ReadObservations(ids, skipMissing, lookup);
    if k < |ids| {
      FirstUnreadableAt(ids, k, lookup);
      return Failure(Obs(ids[k], lookup).error);
    }
    assert ids[..k] == ids;
    if !skipMissing {
      AllAvailable(ids, lookup);
    }
    return Success(obslist);
  }

  /** `from_config`'s errors: the missing `base_dir` key, a file found in
      neither place. */
  datatype StoreError = KeyError(key: string) | FileNotFound(path1: string, path2: string)

  /** `Path(dir) / filename`: an absolute filename replaces the directory. */
  function Join(dir: string, filename: string): string {
    if |filename| > 0 && filename[0] == '/' then filename else dir + "/" + filename
  }

  /** `_find_file`: the filename itself if it is a file, else the filename
      under `dir`, else an OSError naming both. */
  function FindFile(filename: string, dir: string, isFile: string -> bool): (r: Result<string, StoreError>)
    ensures r.Success? ==> isFile(r.value) && (r.value == filename || r.value == Join(dir, filename))
    ensures r.Failure? <==> !isFile(filename) && !isFile(Join(dir, filename))
    ensures isFile(filename) ==> r == Success(filename)
    ensures r.Failure? ==> r.error == FileNotFound(filename, Join(dir, filename))
  {
    if isFile(filename) then Success(filename)
    else if isFile(Join(dir, filename)) then Success(Join(dir, filename))
    else Failure(FileNotFound(filename, Join(dir, filename)))
  }

  /** What `from_config` hands to `from_files`: the base directory and the
      two index files. */
  datatype Sources = Sources(baseDir: string, hduTable: string, obsTable: string)

  /** `from_config`: `base_dir` is required; the index files default to
      DEFAULT_HDU_TABLE and DEFAULT_OBS_TABLE and are looked up with
      `_find_file`, the HDU index first. */
  function FromConfig(config: map<string, string>, isFile: string -> bool): (r: Result<Sources, StoreError>)
    ensures "base_dir" !in config ==> r == Failure(KeyError("base_dir"))
    ensures r.Success? ==>
              var hdu := if "hduindx" in config then config["hduindx"] else DEFAULT_HDU_TABLE;
              var obs := if "obsindx" in config then config["obsindx"] else DEFAULT_OBS_TABLE;
              && r.value.baseDir == config["base_dir"]
              && isFile(r.value.hduTable) && (r.value.hduTable == hdu || r.value.hduTable == Join(config["base_dir"], hdu))
              && isFile(r.value.obsTable) && (r.value.obsTable == obs || r.value.obsTable == Join(config["base_dir"], obs))
    ensures "base_dir" in config ==>
              var hdu := if "hduindx" in config then config["hduindx"] else DEFAULT_HDU_TABLE;
              var obs := if "obsindx" in config then config["obsindx"] else DEFAULT_OBS_TABLE;
              var hduFile, obsFile := FindFile(hdu, config["base_dir"], isFile), FindFile(obs, config["base_dir"], isFile);
              && (r.Success? <==> hduFile.Success? && obsFile.Success?)
              && (r.Success? ==> r.value == Sources(config["base_dir"], hduFile.value, obsFile.value))
              && (hduFile.Failure? ==> r == Failure(hduFile.error))
              && (hduFile.Success? && obsFile.Failure? ==> r == Failure(obsFile.error))
  {
    if "base_dir" !in config then Failure(KeyError("base_dir"))
    else
      var baseDir := config["base_dir"];
      var hdu := if "hduindx" in config then config["hduindx"] else DEFAULT_HDU_TABLE;
      var obs := if "obsindx" in config then config["obsindx"] else DEFAULT_OBS_TABLE;
      var hduFile :- FindFile(hdu, baseDir, isFile);
      var obsFile :- FindFile(obs, baseDir, isFile);
      Success(Sources(baseDir, hduFile, obsFile))
  }

  /** With no index file names configured and both index files in the base
      directory, the store reads `hdu-index.fits.gz` and `obs-index.fits.gz`
      there (unless files of those names lie in the working directory). */
  lemma FromConfigDefaults(baseDir: string, isFile: string -> bool)
    requires isFile(Join(baseDir, DEFAULT_HDU_TABLE)) && isFile(Join(baseDir, DEFAULT_OBS_TABLE))
    requires !isFile(DEFAULT_HDU_TABLE) && !isFile(DEFAULT_OBS_TABLE)
    ensures FromConfig(map["base_dir" := baseDir], isFile) ==
            Success(Sources(baseDir, baseDir + "/" + DEFAULT_HDU_TABLE, baseDir + "/" + DEFAULT_OBS_TABLE))
  {
  }
}
