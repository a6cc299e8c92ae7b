/** tonuino_organizer/file_organizer.py: renumbering the MP3 files of one
    source folder into `<output>/<NN>/001.mp3`, `002.mp3`, ... The output
    side of the filesystem is an abstract tree: a set of directories and a
    map from each written file to the source it was copied from. Whether a
    copy succeeds is an oracle. */
module FileOrganizer {
  import opened Wrappers
  import opened Chars
  import opened Utils

  /** The TonUINO player addresses at most 255 tracks per folder. */
  const MaxFiles := 255

  datatype OrganizeError =
    | TooManyFiles(count: nat)
    | InvalidPrefix(folderName: string)
    | CopyFailed(source: string, dest: string)

  /** The part of the filesystem `organize_files` writes to. */
  datatype OutputTree = OutputTree(dirs: set<string>, files: map<string, string>)

  /** `Path.__truediv__` on relative names. */
  function Join(dir: string, name: string): string {
    dir + "/" + name
  }

  /** `f"{index:03d}.mp3"`. */
  function OutputName(index: nat): (r: string)
    ensures EndsWith(r, ".mp3")
    ensures index < 1000 ==> |r| == 7
  {
    Pad3(index) + ".mp3"
  }

  function Dest(folder: string, index: nat): string {
    Join(folder, OutputName(index))
  }

  /** The destinations of the first `n` inputs, in input order. */
  function Destinations(folder: string, n: nat): (r: seq<string>)
    ensures |r| == n
  {
    seq(n, j requires 0 <= j < n => Dest(folder, j + 1))
  }

  /** The output map after the first `k` sources were copied, each to the
      destination at the same position. */
  function CopiedTree(files: map<string, string>, sources: seq<string>, dests: seq<string>, k: nat): map<string, string>
    requires k <= |sources| && k <= |dests|
    decreases k
  {
    if k == 0 then files
    else CopiedTree(files, sources, dests, k - 1)[dests[k - 1] := sources[k - 1]]
  }

  /** The 0-based position of the first copy that fails, at or after `i`;
      `|sources|` when none fails. */
  function FirstFailure(sources: seq<string>, dests: seq<string>, copyOk: (string, string) -> bool, i: nat): (k: nat)
    requires i <= |sources| == |dests|
    ensures i <= k <= |sources|
    ensures forall j :: i <= j < k ==> copyOk(sources[j], dests[j])
    ensures k < |sources| ==> !copyOk(sources[k], dests[k])
    decreases |sources| - i
  {
    if i == |sources| || !copyOk(sources[i], dests[i]) then i
    else FirstFailure(sources, dests, copyOk, i + 1)
  }

  /** `organize_files`: the 255 cap first, then the folder prefix, then the
      output folder is created and the inputs are copied in order, the i-th
      (from 1) to `NNN.mp3`. A failing copy aborts the run, and the copies
      made before it stay. */
  method OrganizeFiles(mp3Files: seq<string>, folderName: string, outputPath: string,
                       tree: OutputTree, copyOk: (string, string) -> bool)
    returns (result: Result<seq<string>, OrganizeError>, after: OutputTree)
    ensures |mp3Files| > MaxFiles ==> result == Err(TooManyFiles(|mp3Files|)) && after == tree
    ensures |mp3Files| <= MaxFiles && ExtractTwoDigitPrefix(folderName).Err? ==>
              result == Err(InvalidPrefix(folderName)) && after == tree
    ensures |mp3Files| <= MaxFiles && ExtractTwoDigitPrefix(folderName).Ok? ==>
              var folder := Join(outputPath, ExtractTwoDigitPrefix(folderName).value);
              var dests := Destinations(folder, |mp3Files|);
              var k := FirstFailure(mp3Files, dests, copyOk, 0);
              && after.dirs == tree.dirs + {outputPath, folder}
              && after.files == CopiedTree(tree.files, mp3Files, dests, k)
              && (result.Ok? <==> k == |mp3Files|)
              && (result.Ok? ==> result.value == dests)
              && (result.Err? ==> result.error == CopyFailed(mp3Files[k], dests[k]))
  {
    if |mp3Files| > MaxFiles {
      return Err(TooManyFiles(|mp3Files|)), tree;
    }
    var prefix := ExtractTwoDigitPrefix(folderName);
    if prefix.Err? {
      return Err(InvalidPrefix(folderName)), tree;
    }
    var folder := Join(outputPath, prefix.value);
    var dests := Destinations(folder, |mp3Files|);
    var copied, files := CopyInOrder(mp3Files, dests, tree.files, copyOk);
    after := OutputTree(tree.dirs + {outputPath, folder}, files);
    if |copied| < |mp3Files| {
      result := Err(CopyFailed(mp3Files[|copied|], dests[|copied|]));
    } else {
      result := Ok(copied);
    }
  }

  /** The copy loop of `organize_files`: copies `sources[j]` to `dests[j]` in
      order and stops at the first failing copy. Returns the destinations
      written so far; the files map holds every copy made. */
  method CopyInOrder(sources: seq<string>, dests: seq<string>, files: map<string, string>,
                     copyOk: (string, string) -> bool)
    returns (copied: seq<string>, after: map<string, string>)
    requires |sources| == |dests|
    ensures copied == dests[..FirstFailure(sources, dests, copyOk, 0)]
    ensures after == CopiedTree(files, sources, dests, FirstFailure(sources, dests, copyOk, 0))
  {
    copied := [];
    after := files;
    var index := 1;
    while index <= |sources|
      invariant 1 <= index <= |sources| + 1
      invariant FirstFailure(sources, dests, copyOk, 0) == FirstFailure(sources, dests, copyOk, index - 1)
      invariant copied == dests[..index - 1]
      invariant after == CopiedTree(files, sources, dests, index - 1)
    {
      var source := sources[index - 1];
      var dest := dests[index - 1];
      if !copyOk(source, dest) {
        return;
      }
      after := after[dest := source];
      copied := copied + [dest];
      index := index + 1;
    }
  }

  lemma JoinInjective(dir: string, a: string, b: string)
    requires Join(dir, a) == Join(dir, b)
    ensures a == b
  {
    var n := |dir| + 1;
    assert a == Join(dir, a)[n..];
    assert b == Join(dir, b)[n..];
  }

  /** Different indices give different output names. */
  lemma OutputNameInjective(i: nat, j: nat)
    requires OutputName(i) == OutputName(j)
    ensures i == j
  {
    var p, q := Pad3(i), Pad3(j);
    assert p == OutputName(i)[..|OutputName(i)| - 4];
    assert q == OutputName(j)[..|OutputName(j)| - 4];
  }

  lemma DestInjective(folder: string, i: nat, j: nat)
    requires Dest(folder, i) == Dest(folder, j)
    ensures i == j
  {
    JoinInjective(folder, OutputName(i), OutputName(j));
    OutputNameInjective(i, j);
  }

  /** The i-th input (from 1) lands in `<folder>/NNN.mp3` where NNN is three
      digits reading i, so with at most 255 inputs every name lies in
      001..255, and no two inputs share a destination. */
  lemma DestinationsLayout(folder: string, n: nat)
    requires n <= MaxFiles
    ensures forall j :: 0 <= j < n ==>
              var name := Destinations(folder, n)[j][|folder| + 1..];
              && Destinations(folder, n)[j] == folder + "/" + name
              && |name| == 7 && EndsWith(name, ".mp3")
              && AllDigits(name[..3]) && DigitsValue(name[..3]) == j + 1
              && 1 <= DigitsValue(name[..3]) <= 255
    ensures forall i, j :: 0 <= i < j < n ==> Destinations(folder, n)[i] != Destinations(folder, n)[j]
  {
    forall j | 0 <= j < n
      ensures var name := Destinations(folder, n)[j][|folder| + 1..];
              && Destinations(folder, n)[j] == folder + "/" + name
              && |name| == 7 && EndsWith(name, ".mp3")
              && AllDigits(name[..3]) && DigitsValue(name[..3]) == j + 1
    {
      var name := OutputName(j + 1);
      assert Destinations(folder, n)[j] == folder + "/" + name;
      assert Destinations(folder, n)[j][|folder| + 1..] == name;
      assert name[..3] == Pad3(j + 1);
    }
  }

  /** After the first `k` copies the output holds the old files and the
      first `k` destinations. */
  lemma {:induction false} CopiedTreeKeys(files: map<string, string>, sources: seq<string>, dests: seq<string>, k: nat)
    requires k <= |sources| == |dests|
    ensures CopiedTree(files, sources, dests, k).Keys == files.Keys + set j | 0 <= j < k :: dests[j]
    decreases k
  {
    if k > 0 {
      CopiedTreeKeys(files, sources, dests, k - 1);
      var before := set j | 0 <= j < k - 1 :: dests[j];
      var after := set j | 0 <= j < k :: dests[j];
      assert after == before + {dests[k - 1]};
    }
  }

  /** With distinct destinations, each of the first `k` sources sits at its
      own destination. */
  lemma {:induction false} CopiedTreeAtDest(files: map<string, string>, sources: seq<string>, dests: seq<string>, k: nat)
    requires k <= |sources| == |dests|
    requires forall i, j :: 0 <= i < j < |dests| ==> dests[i] != dests[j]
    ensures forall j :: 0 <= j < k ==> dests[j] in CopiedTree(files, sources, dests, k)
                                       && CopiedTree(files, sources, dests, k)[dests[j]] == sources[j]
    decreases k
  {
    if k > 0 {
      CopiedTreeAtDest(files, sources, dests, k - 1);
    }
  }

  /** A file that is no destination of the first `k` copies is as it was. */
  lemma {:induction false} CopiedTreeElsewhere(files: map<string, string>, sources: seq<string>, dests: seq<string>, k: nat)
    requires k <= |sources| == |dests|
    ensures forall p :: p in files && p !in dests[..k] ==>
              p in CopiedTree(files, sources, dests, k) && CopiedTree(files, sources, dests, k)[p] == files[p]
    decreases k
  {
    if k > 0 {
      CopiedTreeElsewhere(files, sources, dests, k - 1);
      assert dests[..k] == dests[..k - 1] + [dests[k - 1]];
    }
  }

  /** A successful run writes the i-th input to the i-th destination, returns
      one destination per input, and leaves every other output file alone. */
  lemma OrganizeSucceeds(mp3Files: seq<string>, folder: string, files: map<string, string>)
    requires |mp3Files| <= MaxFiles
    ensures var dests := Destinations(folder, |mp3Files|);
            && |dests| == |mp3Files|
            && (forall j :: 0 <= j < |mp3Files| ==>
                  dests[j] in CopiedTree(files, mp3Files, dests, |mp3Files|)
                  && CopiedTree(files, mp3Files, dests, |mp3Files|)[dests[j]] == mp3Files[j])
            && (forall p :: p in files && p !in dests ==>
                  p in CopiedTree(files, mp3Files, dests, |mp3Files|)
                  && CopiedTree(files, mp3Files, dests, |mp3Files|)[p] == files[p])
  {
    var dests := Destinations(folder, |mp3Files|);
    DestinationsLayout(folder, |mp3Files|);
    CopiedTreeAtDest(files, mp3Files, dests, |mp3Files|);
    CopiedTreeElsewhere(files, mp3Files, dests, |mp3Files|);
    assert dests[..|mp3Files|] == dests;
  }

  /** The output folder is named after the first two characters of the
      folder name, whenever they are digits. */
  lemma OutputFolderIsPrefix(folderName: string, outputPath: string)
    requires ExtractTwoDigitPrefix(folderName).Ok?
    ensures |folderName| >= 2 && IsDigit(folderName[0]) && IsDigit(folderName[1])
    ensures Join(outputPath, ExtractTwoDigitPrefix(folderName).value) == outputPath + "/" + folderName[..2]
  {
  }

  /** Because the prefix is not anchored to an underscore, `001_Album` is
      organized into `<output>/00` and `01Album` into `<output>/01`. */
  lemma MalformedFoldersAreOrganized(outputPath: string)
    ensures Join(outputPath, ExtractTwoDigitPrefix("001_Album").value) == outputPath + "/00"
    ensures Join(outputPath, ExtractTwoDigitPrefix("01Album").value) == outputPath + "/01"
  {
    RegexAcceptsMalformedPrefixes();
  }

  /** On every folder name the anchored prefix accepts, the prefix used here
      names the same output folder. */
  lemma WellFormedFoldersAgree(folderName: string, outputPath: string)
    requires ExtractFolderPrefix(folderName).Ok?
    ensures ExtractTwoDigitPrefix(folderName).Ok?
    ensures Join(outputPath, ExtractTwoDigitPrefix(folderName).value) == Join(outputPath, ExtractFolderPrefix(folderName).value)
  {
  }
}
