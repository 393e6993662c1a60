/**
 * `demoDetector::run`: enumerate the `.desc`/`.feat` corpus, check its
 * cardinalities, read the manifest, build the manifest-to-descriptor
 * mapping, load the descriptor database, then run the query loop.
 *
 * The file system is passed in: directory listings (`None` when a directory
 * cannot be opened), the manifest text (`None` when it cannot be opened) and
 * the content of every descriptor file by path. The loop detector is an
 * oracle: `oracle(i)` is the result `detectLoopDB` gives for query image `i`.
 */
module Demo {
  import opened Outcomes
  import opened Enumerator
  import opened FileList
  import opened Descriptors
  import opened Reconciler
  import opened Detection

  /** Why the run stops before the query loop. */
  datatype Abort =
    | NoDescriptorFiles
    | DescFeatCountMismatch(descCount: nat, featCount: nat)
    | NoDescriptorFor(entry: string)
    | CorruptDescriptorFile(name: string, error: DecodeError)

  /**
   * How the run ends. `manifestSizeWarning` records whether the message about
   * the manifest size differing from the number of `.desc` files was printed.
   */
  datatype RunOutcome<T> =
    | Stopped(manifestSizeWarning: bool, reason: Abort)
    | Finished(manifestSizeWarning: bool, mapping: seq<nat>, database: seq<seq<seq<T>>>,
               reports: seq<Diagnostic>, loops: nat, summary: Summary)

  /** `m_descdir + "/" + name`. */
  function PathOf(directory: string, name: string): string
  {
    directory + "/" + name
  }

  /** The checked decoding of the descriptor file `name` in `descDir`. */
  function Decoded<T>(descDir: string, name: string, descFiles: string -> DescFile<T>): Result<seq<T>, DecodeError>
  {
    DecodeDescriptors(descFiles(PathOf(descDir, name)))
  }

  /** `name` decodes with an error, and `abort` reports exactly that. */
  predicate FailsToDecode<T>(descDir: string, name: string, descFiles: string -> DescFile<T>, abort: Abort)
  {
    var d := Decoded(descDir, name, descFiles);
    d.Err? && abort == CorruptDescriptorFile(name, d.error)
  }

  /**
   * The loading loop: for every `.desc` name, its file decoded and reshaped
   * into rows of 128 values; the run stops at the first file that is shorter
   * than its header declares.
   */
  method LoadDatabase<T>(descDir: string, descNames: seq<string>, descFiles: string -> DescFile<T>)
    returns (r: Result<seq<seq<seq<T>>>, Abort>)
    ensures r.Ok? <==> forall i :: 0 <= i < |descNames| ==> Decoded(descDir, descNames[i], descFiles).Ok?
    ensures r.Ok? ==> |r.value| == |descNames|
    ensures r.Ok? ==> forall i :: 0 <= i < |descNames| ==>
      WellShaped(r.value[i]) && Decoded(descDir, descNames[i], descFiles) == Ok(Flatten(r.value[i]))
    ensures r.Err? ==> exists i :: 0 <= i < |descNames| && FailsToDecode(descDir, descNames[i], descFiles, r.error)
  {
    var database: seq<seq<seq<T>>> := [];
    var i := 0;
    while i < |descNames|
      invariant i <= |descNames|
      invariant |database| == i
      invariant forall k :: 0 <= k < i ==>
        WellShaped(database[k]) && Decoded(descDir, descNames[k], descFiles) == Ok(Flatten(database[k]))
    {
      var decoded := Decoded(descDir, descNames[i], descFiles);
      if decoded.Err? {
        r := Err(CorruptDescriptorFile(descNames[i], decoded.error));
        assert FailsToDecode(descDir, descNames[i], descFiles, r.error);
        return;
      }
      var rows := Reshape(decoded.value);
      ReshapeWhole(decoded.value);
      database := database + [rows];
      i := i + 1;
    }
    return Ok(database);
  }

  /** The `.desc` names of the descriptor directory, in enumeration order. */
  function DescNames(descListing: Option<seq<string>>): seq<string>
  {
    Listed("", descListing, DescExtensions)
  }

  /** The `.feat` names of the descriptor directory, in enumeration order. */
  function FeatNames(descListing: Option<seq<string>>): seq<string>
  {
    Listed("", descListing, FeatExtensions)
  }

  /** The query images: `.png` and `.jpg` entries of the image directory, prefixed with it. */
  function QueryImages(imageDir: string, imageListing: Option<seq<string>>): seq<string>
  {
    Listed(imageDir + "/", imageListing, ImageExtensions)
  }

  /** Result of the checks and the mapping loop, before anything is loaded. */
  datatype Reconciliation = Reconciliation(manifestSizeWarning: bool, result: Result<seq<nat>, Abort>)

  /**
   * The corpus and manifest checks of `run`: no `.desc` file and a `.desc`
   * / `.feat` count mismatch are fatal; a manifest size that differs from
   * the `.desc` count is only reported; an entry without a descriptor of the
   * same base name is fatal.
   */
  function Reconcile(descNames: seq<string>, featNames: seq<string>, manifest: seq<string>): (r: Reconciliation)
    ensures r.result == Err(NoDescriptorFiles) <==> |descNames| == 0
    ensures (r.result.Err? && r.result.error.DescFeatCountMismatch?) <==>
      |descNames| != 0 && |descNames| != |featNames|
    ensures r.manifestSizeWarning <==>
      |descNames| != 0 && |descNames| == |featNames| && |manifest| != |descNames|
    ensures (r.result.Err? && r.result.error.NoDescriptorFor?) <==>
      (|descNames| != 0 && |descNames| == |featNames|
       && exists i :: 0 <= i < |manifest| && !Resolved(descNames, manifest[i]))
    ensures r.result.Err? && r.result.error.NoDescriptorFor? ==>
      r.result.error.entry in manifest && !Resolved(descNames, r.result.error.entry)
    ensures r.result.Err? && r.result.error.NoDescriptorFor? ==>
      exists i :: 0 <= i < |manifest| && r.result.error.entry == manifest[i]
        && !Resolved(descNames, manifest[i])
        && forall k :: 0 <= k < i ==> Resolved(descNames, manifest[k])
    ensures r.result.Ok? ==> IsLeastMapping(manifest, descNames, r.result.value)
    ensures r.result.Err? ==> !r.result.error.CorruptDescriptorFile?
  {
    if |descNames| == 0 then Reconciliation(false, Err(NoDescriptorFiles))
    else if |descNames| != |featNames| then
      Reconciliation(false, Err(DescFeatCountMismatch(|descNames|, |featNames|)))
    else
      var warned := |manifest| != |descNames|;
      match BuildMapping(manifest, descNames)
      case Err(i) => Reconciliation(warned, Err(NoDescriptorFor(manifest[i])))
      case Ok(mapping) => Reconciliation(warned, Ok(mapping))
  }

  /** The reconciliation of the corpus listing against the manifest file. */
  function Reconciled(descListing: Option<seq<string>>, manifestFile: Option<string>): Reconciliation
  {
    Reconcile(DescNames(descListing), FeatNames(descListing), ReadFileList(manifestFile))
  }

  /**
   * The whole run. A failed reconciliation stops it before the detector,
   * the images or the descriptors are touched; otherwise every query image
   * gets one diagnostic and the loop count is the number of detections.
   */
  method Run<T>(descDir: string, descListing: Option<seq<string>>, manifestFile: Option<string>,
                imageDir: string, imageListing: Option<seq<string>>,
                descFiles: string -> DescFile<T>, oracle: nat -> DetectionResult)
    returns (out: RunOutcome<T>)
    ensures out.manifestSizeWarning == Reconciled(descListing, manifestFile).manifestSizeWarning
    ensures Reconciled(descListing, manifestFile).result.Err? ==>
      out == Stopped(out.manifestSizeWarning, Reconciled(descListing, manifestFile).result.error)
    ensures out.Stopped? && !out.reason.CorruptDescriptorFile? ==> Reconciled(descListing, manifestFile).result.Err?
    ensures out.Stopped? && out.reason.CorruptDescriptorFile? ==>
      exists i :: 0 <= i < |DescNames(descListing)| && FailsToDecode(descDir, DescNames(descListing)[i], descFiles, out.reason)
    ensures out.Finished? ==> Reconciled(descListing, manifestFile).result == Ok(out.mapping)
    ensures out.Finished? ==> |out.database| == |DescNames(descListing)|
    ensures out.Finished? ==> forall i :: 0 <= i < |out.database| ==>
      (WellShaped(out.database[i])
       && Decoded(descDir, DescNames(descListing)[i], descFiles) == Ok(Flatten(out.database[i])))
    ensures out.Finished? ==> |out.reports| == |QueryImages(imageDir, imageListing)|
    ensures out.Finished? ==> forall i :: 0 <= i < |out.reports| ==> out.reports[i] == Classify(oracle(i))
    ensures out.Finished? ==> out.loops == CountDetections(oracle, |QueryImages(imageDir, imageListing)|)
    ensures out.Finished? ==> (out.summary == NoLoopsFound <==> out.loops == 0)
  {
    var descNames := StoreDescFeat(descListing, true, []);
    var featNames := StoreDescFeat(descListing, false, []);
    assert descNames == DescNames(descListing) by {
      assert [] + DescNames(descListing) == DescNames(descListing);
    }
    assert featNames == FeatNames(descListing) by {
      assert [] + FeatNames(descListing) == FeatNames(descListing);
    }
    var originNames := ReadFileList(manifestFile);
    var reconciled := Reconcile(descNames, featNames, originNames);
    if reconciled.result.Err? {
      return Stopped(reconciled.manifestSizeWarning, reconciled.result.error);
    }

    var filenames := StoreImages(imageDir + "/", imageListing, false, []);
    assert filenames == QueryImages(imageDir, imageListing) by {
      assert [] + QueryImages(imageDir, imageListing) == QueryImages(imageDir, imageListing);
    }
    var database := LoadDatabase(descDir, descNames, descFiles);
    if database.Err? {
      return Stopped(reconciled.manifestSizeWarning, database.error);
    }

    var reports, count, summary := ProcessQueries(filenames, oracle);
    return Finished(reconciled.manifestSizeWarning, reconciled.result.value, database.value, reports, count, summary);
  }
}
