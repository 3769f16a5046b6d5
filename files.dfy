/**
 * Archive bookkeeping as pure functions over abstract file records: the name
 * filter and base-name pairing of GetMatchedCloudAndExtractedFiles, the
 * extension guards of MatchedFilePair, the due-for-extraction test of Restore,
 * and Backup's naming scheme and up-to-date test.
 */
module Files {
  import opened Wrappers
  import opened Domain

  const ZipExtension := ".zip"
  /** BakExtension: the SQL Server Compact data-file extension. */
  const BakExtension := ".sdf"
  /** The length a recognised name has beyond the database name: '_', the 32
      hex digits of a site token and a four-character extension. */
  const SuffixLength := 37
  /** DateTime.MinValue, in ticks. */
  const DateTimeMinValue := 0

  /** A file: its name within its directory, its UTC times and what it holds. */
  datatype FileRecord = FileRecord(name: string, lastWriteUtc: int, creationUtc: int, content: Tables)

  /** The index of the last '.' of `s`, or -1. */
  function LastDot(s: string): (i: int)
    ensures -1 <= i < |s|
    ensures i >= 0 ==> s[i] == '.'
    ensures forall k :: i < k < |s| ==> s[k] != '.'
  {
    if |s| == 0 then -1
    else if s[|s| - 1] == '.' then |s| - 1
    else LastDot(s[..|s| - 1])
  }

  /** Path.GetExtension (and FileInfo.Extension) on a bare file name: from the
      last '.', or "" when there is none or it ends the name. */
  function Extension(name: string): string
  {
    var i := LastDot(name);
    if i < 0 || i == |name| - 1 then "" else name[i..]
  }

  /** Path.GetFileNameWithoutExtension on a bare file name. */
  function NameWithoutExtension(name: string): string
  {
    var i := LastDot(name);
    if i < 0 then name else name[..i]
  }

  /** An extension as the source's constants have it: a '.' and at least one
      further character, none of them a '.'. */
  predicate IsExtension(ext: string)
  {
    |ext| >= 2 && ext[0] == '.' && forall k :: 1 <= k < |ext| ==> ext[k] != '.'
  }

  /** Appending an extension and taking it off again are inverse. */
  lemma WithExtension(base: string, ext: string)
    requires IsExtension(ext)
    ensures Extension(base + ext) == ext
    ensures NameWithoutExtension(base + ext) == base
  {
    var s := base + ext;
    var i := LastDot(s);
    assert s[|base|] == '.';
    assert forall k :: |base| < k < |s| ==> s[k] == ext[k - |base|];
    assert i == |base|;
    assert s[i..] == ext;
    assert s[..i] == base;
  }

  /** A name the file scan recognises: the database name, 37 more characters,
      and the given extension. */
  predicate IsArchiveName(name: string, prefix: string, ext: string)
  {
    |name| == |prefix| + SuffixLength && name[..|prefix|] == prefix && Extension(name) == ext
  }

  /** A zip from a cloud directory with the data file it was extracted to, if any. */
  datatype MatchedPair = MatchedPair(zip: FileRecord, extracted: Option<FileRecord>)

  /** The extension guards of MatchedFilePair's setters: a zip must end ".zip",
      an extracted copy ".sdf"; otherwise InvalidFileTypeException. */
  predicate GuardsHold(p: MatchedPair)
  {
    Extension(p.zip.name) == ZipExtension
    && (p.extracted.Some? ==> Extension(p.extracted.value.name) == BakExtension)
  }

  /** The recognised zips of the cloud directories, directory by directory. */
  function CloudZips(cloudDirs: seq<seq<FileRecord>>, prefix: string): (zs: seq<FileRecord>)
    ensures forall z :: z in zs <==> (exists d :: d in cloudDirs && z in d) && IsArchiveName(z.name, prefix, ZipExtension)
  {
    if cloudDirs == [] then []
    else Recognised(cloudDirs[0], prefix, ZipExtension) + CloudZips(cloudDirs[1..], prefix)
  }

  /** The files of one directory whose names the scan recognises, in order. */
  function Recognised(files: seq<FileRecord>, prefix: string, ext: string): (r: seq<FileRecord>)
    ensures forall f :: f in r <==> f in files && IsArchiveName(f.name, prefix, ext)
  {
    if files == [] then []
    else (if IsArchiveName(files[0].name, prefix, ext) then [files[0]] else [])
         + Recognised(files[1..], prefix, ext)
  }

  /** The name of the data file a zip is extracted to. */
  function ExtractedName(zip: FileRecord): string
  {
    NameWithoutExtension(zip.name) + BakExtension
  }

  /** The index of the first zip with the given name without extension. */
  function FirstWithBase(zips: seq<FileRecord>, base: string): (r: Option<nat>)
    ensures r.Some? ==> r.value < |zips| && NameWithoutExtension(zips[r.value].name) == base
    ensures r.Some? ==> forall k :: 0 <= k < r.value ==> NameWithoutExtension(zips[k].name) != base
    ensures r.None? ==> forall k :: 0 <= k < |zips| ==> NameWithoutExtension(zips[k].name) != base
  {
    if zips == [] then None
    else if NameWithoutExtension(zips[0].name) == base then Some(0)
    else match FirstWithBase(zips[1..], base)
      case None => None
      case Some(k) => Some(k + 1)
  }

  /**
   * GetMatchedCloudAndExtractedFiles. The source scans the data directory
   * and gives each recognised ".sdf" file to the first zip with the same name
   * without extension. Names in one directory are unique, and a ".sdf" file
   * with that base name can only be named ExtractedName(zip), so the scan
   * gives the first zip with each base name the data file of that name.
   */
  function MatchPairs(cloudDirs: seq<seq<FileRecord>>, data: map<string, FileRecord>, prefix: string): (ps: seq<MatchedPair>)
  {
    var zips := CloudZips(cloudDirs, prefix);
    seq(|zips|, i requires 0 <= i < |zips| =>
      var name := ExtractedName(zips[i]);
      MatchedPair(zips[i],
        if FirstWithBase(zips, NameWithoutExtension(zips[i].name)) == Some(i) && name in data
        then Some(data[name]) else None))
  }

  /** Every pair the scan builds passes MatchedFilePair's extension guards, and
      an extracted copy always shares its zip's base name. */
  lemma MatchPairsPassGuards(cloudDirs: seq<seq<FileRecord>>, data: map<string, FileRecord>, prefix: string)
    requires forall n :: n in data ==> data[n].name == n
    ensures forall p :: p in MatchPairs(cloudDirs, data, prefix) ==>
              GuardsHold(p)
              && (p.extracted.Some? ==> NameWithoutExtension(p.extracted.value.name) == NameWithoutExtension(p.zip.name))
  {
    var ps := MatchPairs(cloudDirs, data, prefix);
    var zips := CloudZips(cloudDirs, prefix);
    forall i | 0 <= i < |ps|
      ensures GuardsHold(ps[i])
      ensures ps[i].extracted.Some? ==> NameWithoutExtension(ps[i].extracted.value.name) == NameWithoutExtension(ps[i].zip.name)
    {
      var z := zips[i];
      assert ps[i].zip == z;
      assert z in zips;
      assert Extension(z.name) == ZipExtension;
      if ps[i].extracted.Some? {
        var name := ExtractedName(z);
        assert name in data && ps[i].extracted.value == data[name];
        WithExtension(NameWithoutExtension(z.name), BakExtension);
      }
    }
  }

  /** Restore's filter: a pair is due when it has no extracted copy or the
      copy's creation time is before the zip's last write. */
  predicate Due(p: MatchedPair)
  {
    p.extracted.None? || p.extracted.value.creationUtc < p.zip.lastWriteUtc
  }

  /** The pairs Restore extracts, in scan order. */
  function DuePairs(ps: seq<MatchedPair>): (r: seq<MatchedPair>)
    ensures |r| <= |ps|
    ensures (forall k :: 0 <= k < |ps| ==> !Due(ps[k])) ==> r == []
    decreases |ps|
  {
    if ps == [] then []
    else
      var last := ps[|ps| - 1];
      assert forall k :: 0 <= k < |ps| - 1 ==> ps[..|ps| - 1][k] == ps[k];
      DuePairs(ps[..|ps| - 1]) + (if Due(last) then [last] else [])
  }

  /** Restore extracts exactly the due pairs of the scan. */
  lemma {:induction false} DuePairsMembers(ps: seq<MatchedPair>)
    ensures forall p :: p in DuePairs(ps) <==> p in ps && Due(p)
    decreases |ps|
  {
    if ps != [] {
      var init := ps[..|ps| - 1];
      DuePairsMembers(init);
      assert ps == init + [ps[|ps| - 1]];
    }
  }

  /** The data file a pair leaves behind once extracted: its creation time is
      stamped with the zip's last write. */
  function Stamped(p: MatchedPair): (f: FileRecord)
    ensures !Due(MatchedPair(p.zip, Some(f)))
  {
    FileRecord(ExtractedName(p.zip), p.zip.lastWriteUtc, p.zip.lastWriteUtc, p.zip.content)
  }

  /** The data directory after extracting and stamping each pair in order. */
  function StampAll(data: map<string, FileRecord>, ps: seq<MatchedPair>): (r: map<string, FileRecord>)
    ensures forall n :: n in data ==> n in r
    decreases |ps|
  {
    if ps == [] then data
    else
      var last := ps[|ps| - 1];
      StampAll(data, ps[..|ps| - 1])[ExtractedName(last.zip) := Stamped(last)]
  }

  /** Two zips extract to the same name only if they share a base name. */
  lemma ExtractedNameInjective(a: FileRecord, b: FileRecord)
    requires ExtractedName(a) == ExtractedName(b)
    ensures NameWithoutExtension(a.name) == NameWithoutExtension(b.name)
  {
    var x, y := NameWithoutExtension(a.name), NameWithoutExtension(b.name);
    assert |x| == |y|;
    assert x == (x + BakExtension)[..|x|];
    assert y == (y + BakExtension)[..|y|];
  }

  /** No two recognised zips share a base name. */
  predicate DistinctBases(zs: seq<FileRecord>)
  {
    forall i, j :: 0 <= i < j < |zs| ==> NameWithoutExtension(zs[i].name) != NameWithoutExtension(zs[j].name)
  }

  /** Stamping the due pairs of a sequence, one more pair at a time. */
  lemma StampDueStep(data: map<string, FileRecord>, ps: seq<MatchedPair>)
    requires ps != []
    ensures StampAll(data, DuePairs(ps))
            == if Due(ps[|ps| - 1])
               then StampAll(data, DuePairs(ps[..|ps| - 1]))[ExtractedName(ps[|ps| - 1].zip) := Stamped(ps[|ps| - 1])]
               else StampAll(data, DuePairs(ps[..|ps| - 1]))
  {
    var init := DuePairs(ps[..|ps| - 1]);
    var last := ps[|ps| - 1];
    if Due(last) {
      assert DuePairs(ps) == init + [last];
      assert (init + [last])[..|init|] == init;
    } else {
      assert DuePairs(ps) == init;
    }
  }

  /** No two pairs extract to the same data file name. */
  predicate DistinctExtractedNames(ps: seq<MatchedPair>)
  {
    forall i, j :: 0 <= i < j < |ps| ==> ExtractedName(ps[i].zip) != ExtractedName(ps[j].zip)
  }

  /** A name no pair extracts to keeps its old file when the due pairs are stamped. */
  lemma {:induction false} StampDueKeeps(data: map<string, FileRecord>, ps: seq<MatchedPair>, n: string)
    requires n in data
    requires forall k :: 0 <= k < |ps| ==> ExtractedName(ps[k].zip) != n
    ensures n in StampAll(data, DuePairs(ps)) && StampAll(data, DuePairs(ps))[n] == data[n]
    decreases |ps|
  {
    if ps != [] {
      StampDueStep(data, ps);
      StampDueKeeps(data, ps[..|ps| - 1], n);
    }
  }

  /** StampDueAt for the last pair. */
  lemma StampDueAtLast(data: map<string, FileRecord>, ps: seq<MatchedPair>)
    requires ps != []
    requires forall k :: 0 <= k < |ps| - 1 ==> ExtractedName(ps[k].zip) != ExtractedName(ps[|ps| - 1].zip)
    requires !Due(ps[|ps| - 1]) ==> ExtractedName(ps[|ps| - 1].zip) in data
    ensures ExtractedName(ps[|ps| - 1].zip) in StampAll(data, DuePairs(ps))
    ensures StampAll(data, DuePairs(ps))[ExtractedName(ps[|ps| - 1].zip)]
            == if Due(ps[|ps| - 1]) then Stamped(ps[|ps| - 1]) else data[ExtractedName(ps[|ps| - 1].zip)]
  {
    var init := ps[..|ps| - 1];
    StampDueStep(data, ps);
    if !Due(ps[|ps| - 1]) {
      assert forall k :: 0 <= k < |init| ==> init[k] == ps[k];
      StampDueKeeps(data, init, ExtractedName(ps[|ps| - 1].zip));
    }
  }

  /**
   * After the due pairs are stamped, the data file of pair i is the stamped
   * copy when pair i was due and the old file otherwise, provided no two
   * pairs extract to the same name.
   */
  lemma {:induction false} StampDueAt(data: map<string, FileRecord>, ps: seq<MatchedPair>, i: nat)
    requires DistinctExtractedNames(ps)
    requires i < |ps|
    requires !Due(ps[i]) ==> ExtractedName(ps[i].zip) in data
    ensures ExtractedName(ps[i].zip) in StampAll(data, DuePairs(ps))
    ensures StampAll(data, DuePairs(ps))[ExtractedName(ps[i].zip)]
            == if Due(ps[i]) then Stamped(ps[i]) else data[ExtractedName(ps[i].zip)]
    decreases |ps|
  {
    if i == |ps| - 1 {
      StampDueAtLast(data, ps);
    } else {
      var init := ps[..|ps| - 1];
      assert init[i] == ps[i];
      assert DistinctExtractedNames(init) by {
        assert forall k :: 0 <= k < |init| ==> init[k] == ps[k];
      }
      StampDueAt(data, init, i);
      StampDueStep(data, ps);
    }
  }

  /** Pair i is no longer due after the due pairs have been stamped. */
  lemma SettledAt(cloudDirs: seq<seq<FileRecord>>, data: map<string, FileRecord>, prefix: string, i: nat)
    requires DistinctBases(CloudZips(cloudDirs, prefix))
    requires i < |CloudZips(cloudDirs, prefix)|
    ensures !Due(MatchPairs(cloudDirs, StampAll(data, DuePairs(MatchPairs(cloudDirs, data, prefix))), prefix)[i])
  {
    var zips := CloudZips(cloudDirs, prefix);
    var ps := MatchPairs(cloudDirs, data, prefix);
    var after := StampAll(data, DuePairs(ps));
    var qs := MatchPairs(cloudDirs, after, prefix);
    var name := ExtractedName(zips[i]);
    var first := FirstWithBase(zips, NameWithoutExtension(zips[i].name));
    assert first == Some(i);
    forall a, b | 0 <= a < b < |ps| ensures ExtractedName(ps[a].zip) != ExtractedName(ps[b].zip) {
      if ExtractedName(ps[a].zip) == ExtractedName(ps[b].zip) {
        ExtractedNameInjective(zips[a], zips[b]);
      }
    }
    StampDueAt(data, ps, i);
    assert qs[i].extracted == Some(after[name]);
  }

  /**
   * Restore settles: once every due pair has been extracted and stamped with
   * its zip's last-write time, the same cloud directories yield no due pair,
   * so a second Restore over unchanged zips returns at once. This needs the
   * recognised zips to have distinct base names (see DuplicateBaseStaysDue).
   */
  lemma RestoreSettles(cloudDirs: seq<seq<FileRecord>>, data: map<string, FileRecord>, prefix: string)
    requires DistinctBases(CloudZips(cloudDirs, prefix))
    ensures DuePairs(MatchPairs(cloudDirs, StampAll(data, DuePairs(MatchPairs(cloudDirs, data, prefix))), prefix)) == []
  {
    var qs := MatchPairs(cloudDirs, StampAll(data, DuePairs(MatchPairs(cloudDirs, data, prefix))), prefix);
    forall i | 0 <= i < |qs| ensures !Due(qs[i]) {
      SettledAt(cloudDirs, data, prefix, i);
    }
  }

  /**
   * The scan gives a data file only to the first zip with its base name, so
   * a second zip of the same name (in another cloud directory) never has an
   * extracted copy and is due on every Restore.
   */
  lemma DuplicateBaseStaysDue(cloudDirs: seq<seq<FileRecord>>, data: map<string, FileRecord>, prefix: string, i: nat, j: nat)
    requires i < j < |CloudZips(cloudDirs, prefix)|
    requires NameWithoutExtension(CloudZips(cloudDirs, prefix)[i].name) == NameWithoutExtension(CloudZips(cloudDirs, prefix)[j].name)
    ensures Due(MatchPairs(cloudDirs, data, prefix)[j])
  {
    var zips := CloudZips(cloudDirs, prefix);
    var first := FirstWithBase(zips, NameWithoutExtension(zips[j].name));
    assert first.Some? && first.value <= i;
  }

  /** Backup's name scheme: the data file's name without extension, '_' and
      the first site's token. */
  function ArchiveBaseName(bakFileName: string, guidHex: string): string
  {
    NameWithoutExtension(bakFileName) + "_" + guidHex
  }

  function CloudZipName(bakFileName: string, guidHex: string): string
  {
    ArchiveBaseName(bakFileName, guidHex) + ZipExtension
  }

  /** The name of the single entry inside the zip. */
  function CloudEntryName(bakFileName: string, guidHex: string): string
  {
    ArchiveBaseName(bakFileName, guidHex) + Extension(bakFileName)
  }

  /** A site token as Guid.ToString("N") writes it: 32 characters, no '.'. */
  predicate IsTokenHex(guidHex: string)
  {
    |guidHex| == 32 && forall k :: 0 <= k < |guidHex| ==> guidHex[k] != '.'
  }

  /**
   * What Backup writes, the scan recognises: the zip name passes the filter
   * for the database's name, and the zip is extracted to the name of the
   * entry it holds.
   */
  lemma BackupNameIsRecognised(bakFileName: string, guidHex: string)
    requires IsTokenHex(guidHex)
    requires Extension(bakFileName) == BakExtension
    ensures IsArchiveName(CloudZipName(bakFileName, guidHex), NameWithoutExtension(bakFileName), ZipExtension)
    ensures ExtractedName(FileRecord(CloudZipName(bakFileName, guidHex), 0, 0, EmptyTables))
            == CloudEntryName(bakFileName, guidHex)
  {
    var base := ArchiveBaseName(bakFileName, guidHex);
    var prefix := NameWithoutExtension(bakFileName);
    WithExtension(base, ZipExtension);
    assert base[..|prefix|] == prefix;
    assert (base + ZipExtension)[..|prefix|] == prefix;
  }

  /** LINQ's Max over nullable values: the largest non-null value, or null. */
  function MaxOpt(xs: seq<Option<int>>): (r: Option<int>)
    ensures r.None? <==> forall k :: 0 <= k < |xs| ==> xs[k].None?
    ensures r.Some? ==> Some(r.value) in xs
    ensures r.Some? ==> forall k :: 0 <= k < |xs| && xs[k].Some? ==> xs[k].value <= r.value
  {
    if xs == [] then None
    else
      var rest := MaxOpt(xs[1..]);
      assert forall k :: 1 <= k < |xs| ==> xs[k] == xs[1..][k - 1];
      match xs[0]
      case None => rest
      case Some(x) =>
        if rest.Some? && rest.value > x then rest else Some(x)
  }

  /** Backup's skip test: an existing zip last written at or after the most
      recent change of any table (or no change at all) is up to date. */
  predicate BackupIsUpToDate(cloudZip: Option<FileRecord>, mostRecentEntry: Option<int>)
  {
    cloudZip.Some? && (mostRecentEntry.None? || cloudZip.value.lastWriteUtc >= mostRecentEntry.value)
  }

  /** The file of a directory with the given name, if any. */
  function FindFile(files: seq<FileRecord>, name: string): (r: Option<FileRecord>)
    ensures r.Some? ==> r.value in files && r.value.name == name
    ensures r.None? <==> forall k :: 0 <= k < |files| ==> files[k].name != name
  {
    if files == [] then None
    else if files[0].name == name then Some(files[0])
    else FindFile(files[1..], name)
  }

  /** A directory after writing a file: the file of that name is replaced,
      or the file is added; files of other names are kept. */
  function WriteFile(files: seq<FileRecord>, f: FileRecord): (r: seq<FileRecord>)
    ensures FindFile(r, f.name) == Some(f)
    ensures forall n :: n != f.name ==> FindFile(r, n) == FindFile(files, n)
  {
    if files == [] then [f]
    else if files[0].name == f.name then [f] + files[1..]
    else
      var rest := WriteFile(files[1..], f);
      assert ([files[0]] + rest)[1..] == rest;
      [files[0]] + rest
  }

  /**
   * Backup's decision: None when there is nothing to write (no data file, or
   * an up-to-date zip), otherwise the zip name and its entry name.
   */
  function BackupPlan(bakExists: bool, bakFileName: string, guidHex: string,
                      cloudDir: seq<FileRecord>, tableMaxima: seq<Option<int>>): (r: Option<(string, string)>)
    ensures r.Some? <==>
              bakExists
              && (FindFile(cloudDir, CloudZipName(bakFileName, guidHex)).Some? ==>
                    exists k :: 0 <= k < |tableMaxima| && tableMaxima[k].Some?
                                && tableMaxima[k].value > FindFile(cloudDir, CloudZipName(bakFileName, guidHex)).value.lastWriteUtc)
    ensures r.Some? ==> r.value == (CloudZipName(bakFileName, guidHex), CloudEntryName(bakFileName, guidHex))
  {
    var zipName := CloudZipName(bakFileName, guidHex);
    if !bakExists || BackupIsUpToDate(FindFile(cloudDir, zipName), MaxOpt(tableMaxima)) then None
    else Some((zipName, CloudEntryName(bakFileName, guidHex)))
  }

  /** A zip written at a time no earlier than every table's latest change
      makes the next Backup skip. */
  lemma BackupAfterWriteSkips(bakFileName: string, guidHex: string, cloudDir: seq<FileRecord>,
                              tableMaxima: seq<Option<int>>, written: FileRecord)
    requires written.name == CloudZipName(bakFileName, guidHex)
    requires forall k :: 0 <= k < |tableMaxima| && tableMaxima[k].Some? ==> tableMaxima[k].value <= written.lastWriteUtc
    ensures BackupPlan(true, bakFileName, guidHex, WriteFile(cloudDir, written), tableMaxima).None?
  {
  }
}
