/** Which configuration files of a package will cause a prompt on upgrade
    (plinth/privileged/packages.py).

    A dictionary is a map with its keys in insertion order. */
module Conffiles {
  import opened Wrappers

  type Hash = string

  datatype Dict<V> = Dict(keys: seq<string>, values: map<string, V>)

  ghost predicate ValidDict<V>(d: Dict<V>) {
    && (forall i, j | 0 <= i < j < |d.keys| :: d.keys[i] != d.keys[j])
    && forall k :: k in d.keys <==> k in d.values
  }

  function Put<V>(d: Dict<V>, k: string, v: V): Dict<V> {
    Dict(if k in d.values then d.keys else d.keys + [k], d.values[k := v])
  }

  /** What is on disk: files with their hash, and other paths that exist without one. */
  datatype Disk = Disk(files: map<string, Hash>, others: set<string>)

  function HashOf(disk: Disk, path: string): Option<Hash> {
    if path in disk.files then Some(disk.files[path]) else None
  }

  predicate Exists(disk: Disk, path: string) {
    path in disk.files || path in disk.others
  }

  // ---------- The condition for a prompt ----------

  /** The file of the installed version was changed on disk and differs in the new version. */
  predicate ChangedOnBothSides(status: map<string, Hash>, incoming: map<string, Hash>, disk: Disk, f: string) {
    && f in status && HashOf(disk, f) != Some(status[f])
    && f in incoming && incoming[f] != status[f]
  }

  /** The file is new in the new version and something else is in its place on disk. */
  predicate NewAndInTheWay(status: map<string, Hash>, incoming: map<string, Hash>, disk: Disk, f: string) {
    && f !in status && f in incoming
    && Exists(disk, f) && HashOf(disk, f) != Some(incoming[f])
  }

  predicate Prompts(status: map<string, Hash>, incoming: map<string, Hash>, disk: Disk, f: string) {
    ChangedOnBothSides(status, incoming, disk, f) || NewAndInTheWay(status, incoming, disk, f)
  }

  /** The hash of the installed version is another one than that on disk. */
  predicate Mismatched(status: map<string, Hash>, disk: Disk, f: string) {
    f in status && HashOf(disk, f) != Some(status[f])
  }

  /** Whether the hash of a file of the new version is left out: the file was there before and is
      unchanged on disk. */
  predicate Skipped(status: map<string, Hash>, mismatched: map<string, Option<Hash>>, f: string) {
    f in status && f !in mismatched
  }

  // These conditions as functions of the file.

  function And(p: string -> bool, q: string -> bool): string -> bool {
    f => p(f) && q(f)
  }

  function OnBothSides(status: map<string, Hash>, incoming: map<string, Hash>, disk: Disk): string -> bool {
    f => ChangedOnBothSides(status, incoming, disk, f)
  }

  function InTheWay(status: map<string, Hash>, incoming: map<string, Hash>, disk: Disk): string -> bool {
    f => NewAndInTheWay(status, incoming, disk, f)
  }

  function OnDisk(status: map<string, Hash>, disk: Disk): string -> bool {
    f => Mismatched(status, disk, f)
  }

  function Between(status: map<string, Hash>, incoming: map<string, Hash>): string -> bool {
    f => f in status && f in incoming && status[f] != incoming[f]
  }

  function Hashed(status: map<string, Hash>, mismatched: map<string, Option<Hash>>, skip: bool): string -> bool {
    f => !skip || !Skipped(status, mismatched, f)
  }

  function Select(keys: seq<string>, p: string -> bool): seq<string> {
    if keys == [] then []
    else
      var front, last := Select(keys[..|keys| - 1], p), keys[|keys| - 1];
      if p(last) then front + [last] else front
  }

  lemma SelectSnoc(keys: seq<string>, k: string, p: string -> bool)
    ensures Select(keys + [k], p) == if p(k) then Select(keys, p) + [k] else Select(keys, p)
  {
    assert (keys + [k])[..|keys|] == keys;
  }

  lemma {:induction false} SelectMembers(keys: seq<string>, p: string -> bool, k: string)
    ensures k in Select(keys, p) <==> k in keys && p(k)
  {
    if keys != [] {
      SelectMembers(keys[..|keys| - 1], p, k);
      assert keys == keys[..|keys| - 1] + [keys[|keys| - 1]];
    }
  }

  lemma {:induction false} SelectSame(keys: seq<string>, p: string -> bool, q: string -> bool)
    requires forall k | k in keys :: p(k) == q(k)
    ensures Select(keys, p) == Select(keys, q)
  {
    if keys != [] {
      SelectSame(keys[..|keys| - 1], p, q);
    }
  }

  lemma {:induction false} SelectTwice(keys: seq<string>, p: string -> bool, q: string -> bool)
    ensures Select(Select(keys, p), q) == Select(keys, And(p, q))
  {
    if keys != [] {
      var front, last := keys[..|keys| - 1], keys[|keys| - 1];
      SelectTwice(front, p, q);
      if p(last) {
        SelectSnoc(Select(front, p), last, q);
      }
    }
  }

  /** The list of prompts: old files in the order of the installed version, then new files in the
      order of the new version. */
  function PromptList(status: Dict<Hash>, newKeys: seq<string>, incoming: map<string, Hash>, disk: Disk): seq<string> {
    Select(status.keys, OnBothSides(status.values, incoming, disk))
    + Select(newKeys, InTheWay(status.values, incoming, disk))
  }

  lemma PromptListExactly(status: Dict<Hash>, newKeys: seq<string>, incoming: map<string, Hash>, disk: Disk, f: string)
    requires ValidDict(status) && forall k :: k in newKeys <==> k in incoming
    ensures f in PromptList(status, newKeys, incoming, disk) <==> Prompts(status.values, incoming, disk, f)
  {
    SelectMembers(status.keys, OnBothSides(status.values, incoming, disk), f);
    SelectMembers(newKeys, InTheWay(status.values, incoming, disk), f);
  }

  // ---------- The pipeline for one package ----------

  /** The dictionary holds those names with their hashes on disk. */
  ghost predicate ReadFrom(r: Dict<Option<Hash>>, disk: Disk, names: seq<string>) {
    && ValidDict(r) && r.keys == names
    && forall f | f in r.keys :: r.values[f] == HashOf(disk, f)
  }

  lemma PutReads(r: Dict<Option<Hash>>, disk: Disk, names: seq<string>, f: string)
    requires ReadFrom(r, disk, names) && f !in names
    ensures ReadFrom(Put(r, f, HashOf(disk, f)), disk, names + [f])
  {
  }

  /** The files of the installed version whose hash on disk is another one, with that hash. */
  method FilterMatchingHashes(status: Dict<Hash>, disk: Disk) returns (r: Dict<Option<Hash>>)
    requires ValidDict(status)
    ensures ReadFrom(r, disk, Select(status.keys, OnDisk(status.values, disk)))
  {
    r := Dict([], map[]);
    ghost var wanted := OnDisk(status.values, disk);
    for i := 0 to |status.keys|
      invariant ReadFrom(r, disk, Select(status.keys[..i], wanted))
    {
      var f := status.keys[i];
      var front := status.keys[..i];
      assert status.keys[..i + 1] == front + [f];
      SelectSnoc(front, f, wanted);
      var onDisk := HashOf(disk, f);
      if Some(status.values[f]) != onDisk {
        SelectMembers(front, wanted, f);
        assert f !in front;
        PutReads(r, disk, Select(front, wanted), f);
        r := Put(r, f, onDisk);
      }
    }
    assert status.keys[..|status.keys|] == status.keys;
  }

  /** The distinct names of a list, in order of first occurrence. */
  function Distinct(names: seq<string>): seq<string> {
    if names == [] then []
    else
      var front, last := Distinct(names[..|names| - 1]), names[|names| - 1];
      if last in front then front else front + [last]
  }

  lemma DistinctSnoc(names: seq<string>, name: string)
    ensures Distinct(names + [name]) == if name in Distinct(names) then Distinct(names) else Distinct(names) + [name]
  {
    assert (names + [name])[..|names|] == names;
  }

  lemma {:induction false} DistinctMembers(names: seq<string>, k: string)
    ensures k in Distinct(names) <==> k in names
  {
    if names != [] {
      DistinctMembers(names[..|names| - 1], k);
      assert names == names[..|names| - 1] + [names[|names| - 1]];
    }
  }

  /** The dictionary holds entries of the package, and those names. */
  ghost predicate TakenFrom(r: Dict<Hash>, package: map<string, Hash>, names: seq<string>) {
    && ValidDict(r) && r.keys == names
    && forall f | f in r.keys :: f in package && r.values[f] == package[f]
  }

  lemma PutTakes(r: Dict<Hash>, package: map<string, Hash>, names: seq<string>, f: string)
    requires TakenFrom(r, package, names) && f in package
    ensures TakenFrom(Put(r, f, package[f]), package, if f in names then names else names + [f])
  {
  }

  lemma SelectNext(names: seq<string>, name: string, wanted: string -> bool)
    ensures Select(Distinct(names + [name]), wanted) ==
            var before := Select(Distinct(names), wanted);
            if !wanted(name) || name in before then before else before + [name]
  {
    DistinctSnoc(names, name);
    SelectMembers(Distinct(names), wanted, name);
    SelectSnoc(Distinct(names), name, wanted);
  }

  /** Hash the files of the downloaded package; `skip` turns the optimisation on. */
  method HashesFromDownloadedFile(conffiles: seq<string>, package: map<string, Hash>, status: map<string, Hash>,
                                  mismatched: map<string, Option<Hash>>, skip: bool)
    returns (r: Dict<Hash>)
    requires forall f | f in conffiles :: f in package
    ensures TakenFrom(r, package, Select(Distinct(conffiles), Hashed(status, mismatched, skip)))
  {
    r := Dict([], map[]);
    ghost var wanted := Hashed(status, mismatched, skip);
    for i := 0 to |conffiles|
      invariant TakenFrom(r, package, Select(Distinct(conffiles[..i]), wanted))
    {
      var f := conffiles[i];
      var front := conffiles[..i];
      assert conffiles[..i + 1] == front + [f];
      SelectNext(front, f, wanted);
      if skip && f in status && f !in mismatched {
        continue;
      }
      PutTakes(r, package, Select(Distinct(front), wanted), f);
      r := Put(r, f, package[f]);
    }
    assert conffiles[..|conffiles|] == conffiles;
  }

  method GetModifiedConffiles(status: Dict<Hash>, mismatched: Dict<Option<Hash>>, incoming: Dict<Hash>, disk: Disk)
    returns (modified: seq<string>)
    requires ValidDict(status) && ValidDict(mismatched) && ValidDict(incoming)
    requires forall f | f in mismatched.keys :: f in status.values
    ensures modified ==
            Select(mismatched.keys, Between(status.values, incoming.values))
            + Select(incoming.keys, InTheWay(status.values, incoming.values, disk))
  {
    modified := [];
    for i := 0 to |mismatched.keys|
      invariant modified == Select(mismatched.keys[..i],
                  Between(status.values, incoming.values))
    {
      var f := mismatched.keys[i];
      assert mismatched.keys[..i + 1][..i] == mismatched.keys[..i];
      if f !in incoming.values {
        continue;
      }
      if status.values[f] == incoming.values[f] {
        continue;
      }
      modified := modified + [f];
    }
    assert mismatched.keys[..|mismatched.keys|] == mismatched.keys;
    ghost var oldOnes := modified;
    for i := 0 to |incoming.keys|
      invariant modified == oldOnes + Select(incoming.keys[..i], InTheWay(status.values, incoming.values, disk))
    {
      var f := incoming.keys[i];
      assert incoming.keys[..i + 1][..i] == incoming.keys[..i];
      if f in status.values {
        continue;
      }
      if !Exists(disk, f) {
        continue;
      }
      if HashOf(disk, f) != Some(incoming.values[f]) {
        modified := modified + [f];
      }
    }
    assert incoming.keys[..|incoming.keys|] == incoming.keys;
  }

  /** Leaving out unchanged files does not change which old files prompt. */
  lemma OldFilesPrompt(status: map<string, Hash>, keys: seq<string>, mismatched: seq<string>,
                       incoming: map<string, Hash>, package: map<string, Hash>, disk: Disk)
    requires mismatched == Select(keys, OnDisk(status, disk))
    requires forall f | f in incoming :: f in package && incoming[f] == package[f]
    requires forall f | f in package && f !in incoming :: f in status && !Mismatched(status, disk, f)
    ensures Select(mismatched, Between(status, incoming)) == Select(keys, OnBothSides(status, package, disk))
  {
    SelectTwice(keys, OnDisk(status, disk), Between(status, incoming));
    SelectSame(keys, And(OnDisk(status, disk), Between(status, incoming)), OnBothSides(status, package, disk));
  }

  /** Nor which new files do. */
  lemma NewFilesPrompt(status: map<string, Hash>, keys: seq<string>, hashed: string -> bool,
                       incoming: map<string, Hash>, package: map<string, Hash>, disk: Disk)
    requires forall f | f in keys :: f in package && (hashed(f) <==> f in incoming)
    requires forall f | f in incoming :: f in package && incoming[f] == package[f]
    requires forall f | f in package && f !in incoming :: f in status
    ensures Select(Select(keys, hashed), InTheWay(status, incoming, disk)) ==
            Select(keys, InTheWay(status, package, disk))
  {
    SelectTwice(keys, hashed, InTheWay(status, incoming, disk));
    SelectSame(keys, And(hashed, InTheWay(status, incoming, disk)), InTheWay(status, package, disk));
  }

  /** The whole pipeline, with or without skipping unchanged files: the result is the list of
      prompts either way. */
  method FilterConffiles(status: Dict<Hash>, conffiles: seq<string>, package: map<string, Hash>, disk: Disk, skip: bool)
    returns (modified: seq<string>)
    requires ValidDict(status) && forall f :: f in conffiles <==> f in package
    ensures modified == PromptList(status, Distinct(conffiles), package, disk)
  {
    var mismatched := FilterMatchingHashes(status, disk);
    var incoming := HashesFromDownloadedFile(conffiles, package, status.values, mismatched.values, skip);
    ghost var hashed := Hashed(status.values, mismatched.values, skip);
    forall f ensures f in mismatched.values <==> Mismatched(status.values, disk, f) {
      SelectMembers(status.keys, OnDisk(status.values, disk), f);
    }
    forall f ensures f in incoming.values <==> f in package && hashed(f) {
      DistinctMembers(conffiles, f);
      SelectMembers(Distinct(conffiles), hashed, f);
    }
    modified := GetModifiedConffiles(status, mismatched, incoming, disk);
    OldFilesPrompt(status.values, status.keys, mismatched.keys, incoming.values, package, disk);
    forall f | f in Distinct(conffiles) ensures f in package {
      DistinctMembers(conffiles, f);
    }
    NewFilesPrompt(status.values, Distinct(conffiles), hashed, incoming.values, package, disk);
  }

  // ---------- All packages ----------

  /** What is known of one package: the hashes that its installed version came with, and the
      configuration files and hashes of the downloaded one, none if it was not downloaded. */
  datatype Package = Package(status: Dict<Hash>, conffiles: seq<string>, hashes: map<string, Hash>)

  ghost predicate ValidPackage(p: Package) {
    ValidDict(p.status) && forall f :: f in p.conffiles <==> f in p.hashes
  }

  function PromptsOf(p: Package, disk: Disk): seq<string> {
    PromptList(p.status, Distinct(p.conffiles), p.hashes, disk)
  }

  lemma PromptsOfExactly(p: Package, disk: Disk)
    requires ValidPackage(p)
    ensures forall f :: f in PromptsOf(p, disk) <==> Prompts(p.status.values, p.hashes, disk, f)
    ensures PromptsOf(p, disk) != [] <==> exists f :: Prompts(p.status.values, p.hashes, disk, f)
  {
    forall f ensures f in PromptsOf(p, disk) <==> Prompts(p.status.values, p.hashes, disk, f) {
      forall k ensures k in Distinct(p.conffiles) <==> k in p.hashes {
        DistinctMembers(p.conffiles, k);
      }
      PromptListExactly(p.status, Distinct(p.conffiles), p.hashes, disk, f);
    }
    if PromptsOf(p, disk) != [] {
      assert PromptsOf(p, disk)[0] in PromptsOf(p, disk);
    }
  }

  /** The packages with a prompt pending, and the files that cause it. */
  method FilterConffilePackages(packages: set<string>, known: map<string, Package>, disk: Disk, skip: bool)
    returns (info: map<string, seq<string>>)
    requires forall p | p in packages :: p in known && ValidPackage(known[p])
    ensures forall p :: p in info <==>
              p in packages && exists f :: Prompts(known[p].status.values, known[p].hashes, disk, f)
    ensures forall p | p in info :: info[p] == PromptsOf(known[p], disk)
  {
    info := map[];
    var left := packages;
    while left != {}
      invariant left <= packages
      invariant forall p :: p in info <==> p in packages && p !in left && PromptsOf(known[p], disk) != []
      invariant forall p | p in info :: info[p] == PromptsOf(known[p], disk)
      decreases left
    {
      var name :| name in left;
      left := left - {name};
      var p := known[name];
      var modified := FilterConffiles(p.status, p.conffiles, p.hashes, disk, skip);
      if modified != [] {
        info := info[name := modified];
      }
    }
    forall p | p in packages ensures PromptsOf(known[p], disk) != [] <==>
                                       exists f :: Prompts(known[p].status.values, known[p].hashes, disk, f)
    {
      PromptsOfExactly(known[p], disk);
    }
  }

  /** The condition in plain terms: a file of both versions that was changed or deleted on disk and
      differs between the versions, or a file of the new version only where the disk has something
      else, be it another content or no file. */
  lemma PromptsLiterally(p: Package, disk: Disk, f: string)
    requires ValidPackage(p) && (forall k | k in disk.files :: k !in disk.others)
    ensures f in PromptsOf(p, disk) <==>
              && f in p.hashes
              && (if f in p.status.values
                  then (f in disk.files ==> disk.files[f] != p.status.values[f]) && p.status.values[f] != p.hashes[f]
                  else (f in disk.files && disk.files[f] != p.hashes[f]) || f in disk.others)
  {
    PromptsOfExactly(p, disk);
  }
}
