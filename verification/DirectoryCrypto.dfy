/** EncryptToDir and DecryptToDir: a file tree becomes a tree of containers and back. */
module DirectoryCrypto {
  import opened Octets
  import opened EncryptedFile
  import opened EncryptedFileTheorems
  import opened DirectoryTasks

  type Files = map<Path, Bytes>

  const ENC_SUFFIX: string := ".enc"

  /******* File names *******/

  function LastDot(name: string): (r: Option<nat>)
    ensures r.Some? ==> r.value < |name| && name[r.value] == '.'
    ensures forall i :: 0 <= i < |name| && name[i] == '.' ==> r.Some? && i <= r.value
  {
    if name == "" then None
    else if name[|name| - 1] == '.' then Some(|name| - 1)
    else LastDot(name[..|name| - 1])
  }

  /** `std::filesystem::path::extension`: a leading dot does not start an extension. */
  function Extension(name: string): (r: string)
    ensures |r| <= |name|
  {
    if name == "." || name == ".." then ""
    else match LastDot(name)
      case Some(i) => if i == 0 then "" else name[i..]
      case None => ""
  }

  /** `replace_extension("")`. */
  function WithoutExtension(name: string): string {
    name[..|name| - |Extension(name)|]
  }

  /** Removing the extension undoes appending the suffix, except for the empty name. */
  lemma SuffixRoundTrip(name: string)
    ensures Extension(name + ENC_SUFFIX) == ENC_SUFFIX <==> name != ""
    ensures name != "" ==> WithoutExtension(name + ENC_SUFFIX) == name
  {
    var enc := name + ENC_SUFFIX;
    assert enc[|name|] == '.';
    assert enc[|name| + 1] == 'e' && enc[|name| + 2] == 'n' && enc[|name| + 3] == 'c';
    assert LastDot(enc) == Some(|name|);
    assert enc[|name|..] == ENC_SUFFIX;
  }

  function Name(p: Path): string
    requires p != []
  {
    p[|p| - 1]
  }

  function EncDest(p: Path): (r: Path)
    requires p != []
    ensures r != [] && Parent(r) == Parent(p)
  {
    Parent(p) + [Name(p) + ENC_SUFFIX]
  }

  function DecDest(p: Path): (r: Path)
    requires p != []
    ensures r != [] && Parent(r) == Parent(p)
  {
    if Extension(Name(p)) == ENC_SUFFIX then Parent(p) + [WithoutExtension(Name(p))] else p
  }

  /** Four last characters ".enc" after at least one other. */
  ghost predicate EndsInEnc(name: string) {
    var n := |name|;
    n > 4 && name[n - 4] == '.' && name[n - 3] == 'e' && name[n - 2] == 'n' && name[n - 1] == 'c'
  }

  lemma EncNameIff(name: string)
    ensures Extension(name) == ENC_SUFFIX <==> EndsInEnc(name)
  {
    var n := |name|;
    if EndsInEnc(name) {
      assert LastDot(name) == Some(n - 4);
      assert name[n - 4..] == ENC_SUFFIX;
    }
    if Extension(name) == ENC_SUFFIX {
      var e := name[n - 4..];
      assert e == ENC_SUFFIX;
      assert name[n - 4] == e[0] && name[n - 3] == e[1] && name[n - 2] == e[2] && name[n - 1] == e[3];
    }
  }

  /** Where files go: a container to its path less the last four characters, any other file to its own
      path, and a container is written to the path with ".enc" appended. */
  lemma DestsAre(p: Path)
    requires p != []
    ensures var last := p[|p| - 1];
            && DecDest(p) == (if EndsInEnc(last) then p[|p| - 1 := last[..|last| - 4]] else p)
            && EncDest(p) == p[|p| - 1 := last + ".enc"]
  {
    EncNameIff(Name(p));
  }

  lemma DestRoundTrip(p: Path)
    requires p != [] && Name(p) != ""
    ensures DecDest(EncDest(p)) == p && Extension(Name(EncDest(p))) == ENC_SUFFIX
  {
    SuffixRoundTrip(Name(p));
    assert p == Parent(p) + [Name(p)];
  }

  /******* Trees *******/

  /** Not the name of a regular file: the dot names are directories. */
  predicate NoFileName(name: string) { name == "" || name == "." || name == ".." }

  /** Regular files, none of them above another. */
  ghost predicate ValidTree(files: Files) {
    && (forall p :: p in files ==> p != [] && !NoFileName(Name(p)))
    && (forall p, q :: p in files && q in files ==> !(p <= Parent(q)))
  }

  /** The directory walk meets every file once, in any order. */
  ghost predicate Enumerates(order: seq<Path>, files: Files) {
    && (forall i :: 0 <= i < |order| ==> order[i] in files)
    && (forall i, j :: 0 <= i < j < |order| ==> order[i] != order[j])
    && (forall p :: p in files ==> p in order)
  }

  /** No file name plus ".enc" is also a directory that holds a file. */
  ghost predicate NoEncCollision(files: Files)
    requires ValidTree(files)
  {
    forall p, q :: p in files && q in files ==> !(EncDest(p) <= Parent(q))
  }

  ghost predicate IvsFor(ivs: map<Path, seq<Bytes>>, files: Files) {
    forall p :: p in files ==> p in ivs && ValidIvs(ivs[p], PacketCount(|files[p]|))
  }

  const EMPTY: FileSystem := FileSystem({}, map[])

  /** How a call ends under a schedule: not yet, with an exception, or with this destination. */
  datatype Outcome = Running | Threw | Returned(fs: FileSystem)

  /** The path of a source or destination exists. */
  predicate Present(fs: FileSystem) { [] in fs.dirs }

  function RunJobs(jobs: seq<Job>, dest: FileSystem, schedule: seq<nat>): Outcome {
    var s := Run(jobs, Start(dest, jobs), schedule);
    if !Finished(jobs, s) then Running
    else if Succeeded(jobs, s) then Returned(s.fs)
    else Threw
  }

  /******* Encryption *******/

  function EncryptJob(a: Aead, key: Bytes, ivs: seq<Bytes>, p: Path, data: Bytes): Job
    requires p != [] && ValidIvs(ivs, PacketCount(|data|))
  {
    var n := PacketCount(|data|);
    var blocks := if data == [] || !ValidKey(key) then [] else SealAll(a, key, ivs, Split(data, n, CHUNK_LEN));
    Job(EncDest(p), true, data != [], [Header(n)] + blocks, ValidKey(key))
  }

  function EncryptJobs(a: Aead, key: Bytes, ivs: map<Path, seq<Bytes>>, order: seq<Path>, files: Files): (r: seq<Job>)
    requires ValidTree(files) && Enumerates(order, files) && IvsFor(ivs, files)
    ensures |r| == |order|
    ensures forall i :: 0 <= i < |order| ==> r[i] == EncryptJob(a, key, ivs[order[i]], order[i], files[order[i]])
  {
    seq(|order|, i requires 0 <= i < |order| => EncryptJob(a, key, ivs[order[i]], order[i], files[order[i]]))
  }

  lemma EncryptJobWrites(a: Aead, key: Bytes, ivs: seq<Bytes>, p: Path, data: Bytes)
    requires p != [] && ValidIvs(ivs, PacketCount(|data|)) && data != [] && ValidKey(key)
    ensures Flatten(EncryptJob(a, key, ivs, p, data).writes) == EncodeFile(a, key, ivs, data)
  {
    var job := EncryptJob(a, key, ivs, p, data);
    assert job.writes[1..] == SealAll(a, key, ivs, Split(data, PacketCount(|data|), CHUNK_LEN));
  }

  /** Two tasks write one container exactly when they are given one path. */
  lemma EncDestInjective(p: Path, q: Path)
    requires p != [] && q != []
    ensures EncDest(p) == EncDest(q) <==> p == q
  {
    if EncDest(p) == EncDest(q) {
      assert Name(EncDest(p)) == Name(p) + ENC_SUFFIX && Name(EncDest(q)) == Name(q) + ENC_SUFFIX;
      assert Name(p) == Name(EncDest(p))[..|Name(EncDest(p))| - 4];
      assert Name(q) == Name(EncDest(q))[..|Name(EncDest(q))| - 4];
      assert p == Parent(p) + [Name(p)] && q == Parent(q) + [Name(q)];
    }
  }

  /** The tree of containers of `files`. */
  ghost predicate IsEncryptionOf(a: Aead, key: Bytes, ivs: map<Path, seq<Bytes>>, files: Files, out: Files)
    requires ValidTree(files) && IvsFor(ivs, files)
  {
    && (forall p {:trigger EncDest(p)} :: p in files ==>
          && ValidKey(key) && files[p] != []
          && EncDest(p) in out && out[EncDest(p)] == EncodeFile(a, key, ivs[p], files[p]))
    && (forall q {:trigger GoesTo(files, q)} :: q in out ==> GoesTo(files, q))
  }

  /** Some file of the tree is encrypted to this path. */
  ghost predicate GoesTo(files: Files, q: Path)
    requires ValidTree(files)
  {
    exists p :: p in files && q == EncDest(p)
  }

  lemma EncryptJobsAlone(a: Aead, key: Bytes, ivs: map<Path, seq<Bytes>>, order: seq<Path>, files: Files)
    requires ValidTree(files) && Enumerates(order, files) && IvsFor(ivs, files)
    ensures var jobs := EncryptJobs(a, key, ivs, order, files);
            Named(jobs) && forall i :: 0 <= i < |jobs| ==> Alone(jobs, i) && Agree(jobs, jobs[i].dest)
  {
    var jobs := EncryptJobs(a, key, ivs, order, files);
    forall i, j | 0 <= i < |jobs| && 0 <= j < |jobs| && i != j ensures jobs[i].dest != jobs[j].dest {
      if jobs[i].dest == jobs[j].dest { EncDestInjective(order[i], order[j]); }
    }
  }

  /** When EncryptToDir can succeed. */
  ghost predicate Encryptable(key: Bytes, files: Files)
    requires ValidTree(files)
  {
    && (forall p :: p in files ==> files[p] != [] && ValidKey(key))
    && NoEncCollision(files)
  }

  lemma SoundJobsEncryptable(a: Aead, key: Bytes, ivs: map<Path, seq<Bytes>>, order: seq<Path>, files: Files)
    requires ValidTree(files) && Enumerates(order, files) && IvsFor(ivs, files)
    requires var jobs := EncryptJobs(a, key, ivs, order, files); Named(jobs) && AllSound(jobs) && NoCollision(jobs)
    ensures Encryptable(key, files)
  {
    var jobs := EncryptJobs(a, key, ivs, order, files);
    forall p | p in files ensures files[p] != [] && ValidKey(key) {
      var i :| 0 <= i < |order| && order[i] == p;
      assert jobs[i].opens && jobs[i].finishes;
    }
    forall p, q | p in files && q in files ensures !(EncDest(p) <= Parent(q)) {
      var i :| 0 <= i < |order| && order[i] == p;
      var j :| 0 <= j < |order| && order[j] == q;
      assert jobs[i].dest == EncDest(p) && Parent(jobs[j].dest) == Parent(q);
    }
  }

  lemma EncryptableJobsSound(a: Aead, key: Bytes, ivs: map<Path, seq<Bytes>>, order: seq<Path>, files: Files)
    requires ValidTree(files) && Enumerates(order, files) && IvsFor(ivs, files) && Encryptable(key, files)
    requires Named(EncryptJobs(a, key, ivs, order, files))
    ensures var jobs := EncryptJobs(a, key, ivs, order, files); AllSound(jobs) && NoCollision(jobs)
  {
    var jobs := EncryptJobs(a, key, ivs, order, files);
    forall i | 0 <= i < |jobs| ensures jobs[i].opens && jobs[i].finishes { assert order[i] in files; }
    forall i, j | 0 <= i < |jobs| && 0 <= j < |jobs| ensures !(jobs[i].dest <= Parent(jobs[j].dest)) {
      assert order[i] in files && order[j] in files;
    }
  }

  function EncryptToDir(a: Aead, key: Bytes, ivs: map<Path, seq<Bytes>>, src: FileSystem, order: seq<Path>,
                        dest: FileSystem, schedule: seq<nat>): Outcome
    requires ValidTree(src.files) && Enumerates(order, src.files) && IvsFor(ivs, src.files)
  {
    if !Present(src) then Threw else RunJobs(EncryptJobs(a, key, ivs, order, src.files), dest, schedule)
  }

  /** Under every interleaving EncryptToDir returns exactly for an existing tree of non-empty files with
      a usable key and no colliding names, and then has written exactly the containers. */
  lemma EncryptToDirIff(a: Aead, key: Bytes, ivs: map<Path, seq<Bytes>>, src: FileSystem, order: seq<Path>,
                        dest: FileSystem, schedule: seq<nat>)
    requires ValidTree(src.files) && Enumerates(order, src.files) && IvsFor(ivs, src.files) && Fresh(dest)
    ensures match EncryptToDir(a, key, ivs, src, order, dest, schedule)
            case Running => true
            case Threw => !(Present(src) && Encryptable(key, src.files))
            case Returned(out) =>
              && Present(src) && Encryptable(key, src.files)
              && IsEncryptionOf(a, key, ivs, src.files, out.files)
              && (Present(out) <==> src.files != map[] || Present(dest))
  {
    var files := src.files;
    var jobs := EncryptJobs(a, key, ivs, order, files);
    var s := Run(jobs, Start(dest, jobs), schedule);
    EncryptJobsAlone(a, key, ivs, order, files);
    if Encryptable(key, files) { EncryptableJobsSound(a, key, ivs, order, files); }
    if Finished(jobs, s) {
      EveryRun(dest, jobs, schedule);
      if AllSound(jobs) && NoCollision(jobs) { SoundJobsEncryptable(a, key, ivs, order, files); }
      if Succeeded(jobs, s) {
        ProducedEncryption(a, key, ivs, files, order, s.fs.files);
        RootIff(dest, jobs, schedule);
        EmptyOrder(order, files);
      }
    }
  }

  /** Every file's container lies at the file's path with ".enc" appended. */
  lemma ContainerWritten(a: Aead, key: Bytes, ivs: map<Path, seq<Bytes>>, src: FileSystem, order: seq<Path>,
                         dest: FileSystem, schedule: seq<nat>, out: FileSystem, p: Path)
    requires ValidTree(src.files) && Enumerates(order, src.files) && IvsFor(ivs, src.files) && Fresh(dest)
    requires EncryptToDir(a, key, ivs, src, order, dest, schedule) == Returned(out) && p in src.files
    ensures ValidKey(key) && src.files[p] != []
    ensures var q := p[|p| - 1 := p[|p| - 1] + ".enc"];
            q in out.files && out.files[q] == EncodeFile(a, key, ivs[p], src.files[p])
  {
    EncryptToDirIff(a, key, ivs, src, order, dest, schedule);
    DestsAre(p);
    assert EncDest(p) in out.files;
  }

  lemma EmptyOrder(order: seq<Path>, files: Files)
    requires Enumerates(order, files)
    ensures order == [] <==> files == map[]
  {
    if order != [] { assert order[0] in files; }
  }

  lemma ProducedEncryption(a: Aead, key: Bytes, ivs: map<Path, seq<Bytes>>, files: Files, order: seq<Path>, out: Files)
    requires ValidTree(files) && Enumerates(order, files) && IvsFor(ivs, files) && Encryptable(key, files)
    requires Produces(EncryptJobs(a, key, ivs, order, files), out)
    ensures IsEncryptionOf(a, key, ivs, files, out)
  {
    var jobs := EncryptJobs(a, key, ivs, order, files);
    EncryptJobsAlone(a, key, ivs, order, files);
    forall p | p in files ensures EncDest(p) in out && out[EncDest(p)] == EncodeFile(a, key, ivs[p], files[p]) {
      var i :| 0 <= i < |order| && order[i] == p;
      EncryptJobWrites(a, key, ivs[p], p, files[p]);
      assert jobs[i].dest == EncDest(p);
    }
    forall q | q in out ensures GoesTo(files, q) {
      assert IsDest(jobs, q);
      var i :| 0 <= i < |jobs| && q == jobs[i].dest;
      assert order[i] in files;
    }
  }

  /******* Decryption *******/

  ghost predicate Representable(files: Files) {
    forall p :: p in files ==> |files[p]| < TWO64
  }

  /** A container goes to a decrypting task; anything else is copied by the walking thread. */
  function DecryptJob(a: Aead, key: Bytes, p: Path, file: Bytes): Job
    requires p != [] && |file| < TWO64
  {
    if Extension(Name(p)) == ENC_SUFFIX
    then Job(DecDest(p), true, !NoFileName(Name(DecDest(p))), Plaintexts(a, key, BlocksOf(file)),
             DecodeFile(a, key, file).Ok?)
    else Job(DecDest(p), false, true, [file], true)
  }

  function DecryptJobs(a: Aead, key: Bytes, order: seq<Path>, files: Files): (r: seq<Job>)
    requires ValidTree(files) && Enumerates(order, files) && Representable(files)
    ensures |r| == |order|
    ensures forall i :: 0 <= i < |order| ==> r[i] == DecryptJob(a, key, order[i], files[order[i]])
  {
    seq(|order|, i requires 0 <= i < |order| => DecryptJob(a, key, order[i], files[order[i]]))
  }

  function DecryptToDir(a: Aead, key: Bytes, src: FileSystem, order: seq<Path>, dest: FileSystem,
                        schedule: seq<nat>): Outcome
    requires ValidTree(src.files) && Representable(src.files) && Enumerates(order, src.files)
  {
    if !Present(src) then Threw else RunJobs(DecryptJobs(a, key, order, src.files), dest, schedule)
  }

  /** What should become of one file: a container is opened, anything else kept. */
  function Plain(a: Aead, key: Bytes, p: Path, file: Bytes): Result<Bytes, Error>
    requires p != [] && |file| < TWO64
  {
    if Extension(Name(p)) == ENC_SUFFIX then DecodeFile(a, key, file) else Ok(file)
  }

  /** When DecryptToDir can succeed. */
  ghost predicate Decryptable(a: Aead, key: Bytes, files: Files)
    requires ValidTree(files) && Representable(files)
  {
    && AllOpen(a, key, files)
    && (forall q :: q in files ==> !NoFileName(Name(DecDest(q))))
    && (forall q, r :: q in files && r in files ==> !(DecDest(q) <= Parent(r)))
  }

  ghost predicate IsDecryptionOf(a: Aead, key: Bytes, files: Files, out: Files)
    requires ValidTree(files) && Representable(files)
  {
    && (forall q {:trigger DecDest(q)} :: q in files ==>
          DecDest(q) in out && Plain(a, key, q, files[q]) == Ok(out[DecDest(q)]))
    && (forall p {:trigger ComesFrom(files, p)} :: p in out ==> ComesFrom(files, p))
  }

  /** Some file of the tree is decrypted to this path. */
  ghost predicate ComesFrom(files: Files, p: Path)
    requires ValidTree(files)
  {
    exists q :: q in files && p == DecDest(q)
  }

  ghost predicate AllOpen(a: Aead, key: Bytes, files: Files)
    requires ValidTree(files) && Representable(files)
  {
    forall q :: q in files ==> Plain(a, key, q, files[q]).Ok?
  }

  /** Every file that goes where `q` goes, as `x` and `x.enc` do, has the plaintext of `q`. */
  ghost predicate SharersAgreeAt(a: Aead, key: Bytes, files: Files, q: Path)
    requires ValidTree(files) && Representable(files) && q in files
  {
    forall r :: r in files && DecDest(r) == DecDest(q) ==> Plain(a, key, r, files[r]) == Plain(a, key, q, files[q])
  }

  ghost predicate SharersAgree(a: Aead, key: Bytes, files: Files)
    requires ValidTree(files) && Representable(files)
  {
    forall q :: q in files ==> SharersAgreeAt(a, key, files, q)
  }

  /** One file at each destination, with the plaintext of those that go there where they agree. */
  ghost predicate KeepsAgreeing(a: Aead, key: Bytes, files: Files, out: Files)
    requires ValidTree(files) && Representable(files)
  {
    && (forall q {:trigger DecDest(q)} :: q in files ==>
          && DecDest(q) in out
          && (SharersAgreeAt(a, key, files, q) ==> Plain(a, key, q, files[q]) == Ok(out[DecDest(q)])))
    && (forall p {:trigger ComesFrom(files, p)} :: p in out ==> ComesFrom(files, p))
  }

  /** Such a tree holds every plaintext exactly when all that share a destination agree. */
  lemma KeepsAllIff(a: Aead, key: Bytes, files: Files, out: Files)
    requires ValidTree(files) && Representable(files) && KeepsAgreeing(a, key, files, out)
    ensures IsDecryptionOf(a, key, files, out) <==> SharersAgree(a, key, files)
  {
    if IsDecryptionOf(a, key, files, out) {
      forall q | q in files ensures SharersAgreeAt(a, key, files, q) {
        assert Plain(a, key, q, files[q]) == Ok(out[DecDest(q)]);
      }
    }
  }

  lemma DecryptJobWrites(a: Aead, key: Bytes, p: Path, file: Bytes)
    requires p != [] && |file| < TWO64 && Plain(a, key, p, file).Ok?
    ensures Flatten(DecryptJob(a, key, p, file).writes) == Plain(a, key, p, file).value
  {
    if Extension(Name(p)) == ENC_SUFFIX { PlaintextsOfOpened(a, key, BlocksOf(file)); } else { FlattenOne(file); }
  }

  lemma SoundJobOpens(a: Aead, key: Bytes, files: Files, order: seq<Path>, q: Path)
    requires ValidTree(files) && Representable(files) && Enumerates(order, files)
    requires AllSound(DecryptJobs(a, key, order, files)) && q in files
    ensures Plain(a, key, q, files[q]).Ok? && !NoFileName(Name(DecDest(q)))
  {
    var jobs := DecryptJobs(a, key, order, files);
    var i :| 0 <= i < |order| && order[i] == q;
    assert jobs[i].background ==> jobs[i].opens && jobs[i].finishes;
  }

  lemma ApartJobs(a: Aead, key: Bytes, files: Files, order: seq<Path>, q: Path, r: Path)
    requires ValidTree(files) && Representable(files) && Enumerates(order, files)
    requires q in files && r in files
    requires var jobs := DecryptJobs(a, key, order, files); Named(jobs) && NoCollision(jobs)
    ensures !(DecDest(q) <= Parent(r))
  {
    var jobs := DecryptJobs(a, key, order, files);
    var i :| 0 <= i < |order| && order[i] == q;
    var j :| 0 <= j < |order| && order[j] == r;
    assert !(jobs[i].dest <= Parent(jobs[j].dest));
  }

  lemma SoundJobsDecryptable(a: Aead, key: Bytes, files: Files, order: seq<Path>)
    requires ValidTree(files) && Representable(files) && Enumerates(order, files)
    requires var jobs := DecryptJobs(a, key, order, files); Named(jobs) && AllSound(jobs) && NoCollision(jobs)
    ensures Decryptable(a, key, files)
  {
    forall q | q in files ensures Plain(a, key, q, files[q]).Ok? && !NoFileName(Name(DecDest(q))) {
      SoundJobOpens(a, key, files, order, q);
    }
    forall q, r | q in files && r in files ensures !(DecDest(q) <= Parent(r)) { ApartJobs(a, key, files, order, q, r); }
  }

  lemma DecryptableJobsSound(a: Aead, key: Bytes, files: Files, order: seq<Path>)
    requires ValidTree(files) && Representable(files) && Enumerates(order, files) && Decryptable(a, key, files)
    requires Named(DecryptJobs(a, key, order, files))
    ensures var jobs := DecryptJobs(a, key, order, files); AllSound(jobs) && NoCollision(jobs)
  {
    var jobs := DecryptJobs(a, key, order, files);
    forall i | 0 <= i < |jobs| ensures jobs[i].finishes && jobs[i].opens {
      assert Plain(a, key, order[i], files[order[i]]).Ok? && !NoFileName(Name(DecDest(order[i])));
    }
    forall i, j | 0 <= i < |jobs| && 0 <= j < |jobs| ensures !(jobs[i].dest <= Parent(jobs[j].dest)) {
      assert order[i] in files && order[j] in files;
    }
  }

  lemma AgreeingJobs(a: Aead, key: Bytes, files: Files, order: seq<Path>, q: Path)
    requires ValidTree(files) && Representable(files) && Enumerates(order, files) && AllOpen(a, key, files)
    requires q in files && SharersAgreeAt(a, key, files, q)
    ensures Agree(DecryptJobs(a, key, order, files), DecDest(q))
  {
    var jobs := DecryptJobs(a, key, order, files);
    forall i | 0 <= i < |jobs| && jobs[i].dest == DecDest(q)
      ensures Flatten(jobs[i].writes) == Plain(a, key, q, files[q]).value
    {
      assert order[i] in files && DecDest(order[i]) == DecDest(q);
      DecryptJobWrites(a, key, order[i], files[order[i]]);
    }
  }

  lemma ProducedEntry(a: Aead, key: Bytes, files: Files, order: seq<Path>, out: Files, q: Path)
    requires ValidTree(files) && Representable(files) && Enumerates(order, files) && AllOpen(a, key, files)
    requires Produces(DecryptJobs(a, key, order, files), out) && q in files
    ensures DecDest(q) in out
    ensures SharersAgreeAt(a, key, files, q) ==> Plain(a, key, q, files[q]) == Ok(out[DecDest(q)])
  {
    var jobs := DecryptJobs(a, key, order, files);
    var i :| 0 <= i < |order| && order[i] == q;
    assert jobs[i].dest == DecDest(q);
    if SharersAgreeAt(a, key, files, q) {
      AgreeingJobs(a, key, files, order, q);
      DecryptJobWrites(a, key, q, files[q]);
    }
  }

  lemma ProducedDecryption(a: Aead, key: Bytes, files: Files, order: seq<Path>, out: Files)
    requires ValidTree(files) && Representable(files) && Enumerates(order, files) && AllOpen(a, key, files)
    requires Produces(DecryptJobs(a, key, order, files), out)
    ensures KeepsAgreeing(a, key, files, out)
  {
    var jobs := DecryptJobs(a, key, order, files);
    forall q | q in files
      ensures DecDest(q) in out
      ensures SharersAgreeAt(a, key, files, q) ==> Plain(a, key, q, files[q]) == Ok(out[DecDest(q)])
    {
      ProducedEntry(a, key, files, order, out, q);
    }
    forall p | p in out ensures ComesFrom(files, p) {
      assert IsDest(jobs, p);
      DestComesFrom(a, key, files, order, p);
    }
  }

  lemma DestComesFrom(a: Aead, key: Bytes, files: Files, order: seq<Path>, p: Path)
    requires ValidTree(files) && Representable(files) && Enumerates(order, files)
    requires IsDest(DecryptJobs(a, key, order, files), p)
    ensures ComesFrom(files, p)
  {
    var i :| 0 <= i < |order| && p == DecryptJobs(a, key, order, files)[i].dest;
    assert order[i] in files;
  }

  /** Under every interleaving DecryptToDir returns exactly when the source exists, every container opens,
      each goes to a name that a file can have, and no file is needed as a directory. Then every file
      whose sharers agree is kept, and all files are kept exactly when all sharers agree. */
  lemma DecryptToDirIff(a: Aead, key: Bytes, src: FileSystem, order: seq<Path>, dest: FileSystem, schedule: seq<nat>)
    requires ValidTree(src.files) && Representable(src.files) && Enumerates(order, src.files) && Fresh(dest)
    ensures match DecryptToDir(a, key, src, order, dest, schedule)
            case Running => true
            case Threw => !(Present(src) && Decryptable(a, key, src.files))
            case Returned(out) =>
              && Present(src) && Decryptable(a, key, src.files)
              && KeepsAgreeing(a, key, src.files, out.files)
              && (IsDecryptionOf(a, key, src.files, out.files) <==> SharersAgree(a, key, src.files))
  {
    var files := src.files;
    var jobs := DecryptJobs(a, key, order, files);
    var s := Run(jobs, Start(dest, jobs), schedule);
    if Decryptable(a, key, files) { DecryptableJobsSound(a, key, files, order); }
    if Finished(jobs, s) {
      EveryRun(dest, jobs, schedule);
      if AllSound(jobs) && NoCollision(jobs) { SoundJobsDecryptable(a, key, files, order); }
      if Succeeded(jobs, s) {
        ProducedDecryption(a, key, files, order, s.fs.files);
        KeepsAllIff(a, key, files, s.fs.files);
      }
    }
  }

  /** A container lies where its plaintext's container is written. */
  lemma Reappended(q: Path)
    requires q != [] && DecDest(q) != q
    ensures EncDest(DecDest(q)) == q
  {
    var name := Name(q);
    var stem := WithoutExtension(name);
    assert DecDest(q) == Parent(q) + [stem];
    assert stem + ENC_SUFFIX == name;
    assert Parent(DecDest(q)) == Parent(q) && Name(DecDest(q)) == stem;
    assert q == Parent(q) + [name];
  }

  /** The only file that shares the destination of `p` with it is the container beside it. */
  lemma SharersOf(p: Path, r: Path)
    requires p != [] && r != [] && DecDest(r) == p && r != p
    ensures r == p[|p| - 1 := p[|p| - 1] + ".enc"]
  {
    Reappended(r);
    DestsAre(p);
  }

  /** A file that is not a container is copied to its own path, unless its container lies beside it. */
  lemma PlainFileKept(a: Aead, key: Bytes, src: FileSystem, order: seq<Path>, dest: FileSystem, schedule: seq<nat>,
                      out: FileSystem, p: Path)
    requires ValidTree(src.files) && Representable(src.files) && Enumerates(order, src.files) && Fresh(dest)
    requires DecryptToDir(a, key, src, order, dest, schedule) == Returned(out)
    requires p in src.files && !EndsInEnc(p[|p| - 1]) && p[|p| - 1 := p[|p| - 1] + ".enc"] !in src.files
    ensures p in out.files && out.files[p] == src.files[p]
  {
    DecryptToDirIff(a, key, src, order, dest, schedule);
    DestsAre(p);
    EncNameIff(Name(p));
    forall r | r in src.files && DecDest(r) == DecDest(p) ensures r == p {
      if r != p { SharersOf(p, r); }
    }
    assert SharersAgreeAt(a, key, src.files, p);
  }

  /** A container is opened to its path less ".enc", unless a file of that path lies beside it. */
  lemma ContainerOpened(a: Aead, key: Bytes, src: FileSystem, order: seq<Path>, dest: FileSystem, schedule: seq<nat>,
                        out: FileSystem, q: Path)
    requires ValidTree(src.files) && Representable(src.files) && Enumerates(order, src.files) && Fresh(dest)
    requires DecryptToDir(a, key, src, order, dest, schedule) == Returned(out)
    requires q in src.files && EndsInEnc(q[|q| - 1])
    requires q[|q| - 1 := q[|q| - 1][..|q[|q| - 1]| - 4]] !in src.files
    ensures var p := q[|q| - 1 := q[|q| - 1][..|q[|q| - 1]| - 4]];
            p in out.files && DecodeFile(a, key, src.files[q]) == Ok(out.files[p])
  {
    DecryptToDirIff(a, key, src, order, dest, schedule);
    DestsAre(q);
    EncNameIff(Name(q));
    assert DecDest(q) !in src.files;
    forall r | r in src.files && DecDest(r) == DecDest(q) ensures r == q {
      Reappended(r);
      Reappended(q);
    }
    assert SharersAgreeAt(a, key, src.files, q);
  }

  lemma {:induction false} EnumerationExists(files: Files) returns (order: seq<Path>)
    ensures Enumerates(order, files)
    decreases |files|
  {
    if files == map[] { return []; }
    var p :| p in files;
    var rest := EnumerationExists(files - {p});
    order := [p] + rest;
    assert forall q :: q in files && q != p ==> q in files - {p};
  }

  /** A tree that can be decrypted has a walk and an interleaving that return. */
  lemma CanDecrypt(a: Aead, key: Bytes, src: FileSystem) returns (order: seq<Path>, schedule: seq<nat>)
    requires ValidTree(src.files) && Representable(src.files) && Present(src) && Decryptable(a, key, src.files)
    ensures Enumerates(order, src.files)
    ensures DecryptToDir(a, key, src, order, EMPTY, schedule).Returned?
  {
    order := EnumerationExists(src.files);
    var jobs := DecryptJobs(a, key, order, src.files);
    DecryptableJobsSound(a, key, src.files, order);
    schedule := Completes(jobs, Start(EMPTY, jobs));
    EveryRun(EMPTY, jobs, schedule);
  }

  ghost predicate ReturnsAll(a: Aead, key: Bytes, src: FileSystem, order: seq<Path>, dest: FileSystem,
                             schedule: seq<nat>)
    requires ValidTree(src.files) && Representable(src.files)
  {
    Enumerates(order, src.files) && Fresh(dest) && DecryptToDir(a, key, src, order, dest, schedule).Returned? ==>
      IsDecryptionOf(a, key, src.files, DecryptToDir(a, key, src, order, dest, schedule).fs.files)
  }

  /** DecryptToDir keeps every file, in every run that returns, exactly when no file lies beside a
      container of something else. */
  lemma KeepsEveryFileIff(a: Aead, key: Bytes, src: FileSystem)
    requires ValidTree(src.files) && Representable(src.files) && Present(src) && Decryptable(a, key, src.files)
    ensures (forall order, dest, schedule :: ReturnsAll(a, key, src, order, dest, schedule)) <==>
            SharersAgree(a, key, src.files)
  {
    if SharersAgree(a, key, src.files) {
      forall order, dest, schedule ensures ReturnsAll(a, key, src, order, dest, schedule) {
        if Enumerates(order, src.files) && Fresh(dest) { DecryptToDirIff(a, key, src, order, dest, schedule); }
      }
    } else {
      var order, schedule := CanDecrypt(a, key, src);
      DecryptToDirIff(a, key, src, order, EMPTY, schedule);
      assert !ReturnsAll(a, key, src, order, EMPTY, schedule);
    }
  }

  /** The containers "..enc" and "...enc" go to "." and "..", so a tree that holds one is refused. */
  lemma DotDest(name: string)
    requires name == "." || name == ".."
    ensures var p := [name + ENC_SUFFIX];
            Parent(p) == [] && !NoFileName(Name(p)) && Extension(Name(p)) == ENC_SUFFIX && DecDest(p) == [name]
  {
    SuffixRoundTrip(name);
    assert |name + ENC_SUFFIX| > 2;
  }

  /** An existing destination with one file. */
  function Holding(d: Path, content: Bytes): FileSystem { FileSystem({[]}, map[d := content]) }

  lemma OneBlock(a: Aead, key: Bytes, iv: Bytes, data: Bytes)
    requires ValidKey(key) && |iv| == IV_LEN && 0 < |data| <= CHUNK_LEN
    ensures PacketCount(|data|) == 1
    ensures var file := EncodeFile(a, key, [iv], data);
            |file| < TWO64 && DecodeFile(a, key, file).Ok? && Plaintexts(a, key, BlocksOf(file)) == [data]
  {
    var file := EncodeFile(a, key, [iv], data);
    EncodedIsRepresentable(a, key, [iv], data);
    RoundTrip(a, key, [iv], data);
    EncodedHeader(a, key, [iv], data);
    var blocks := BlocksOf(file);
    assert |blocks| == 1;
    assert blocks[1..] == [];
    PlaintextsOfOpened(a, key, blocks);
    FlattenOne(OpenBlock(a, key, blocks[0]).value);
  }

  /** DecryptToDir on a directory that holds `x` and `x.enc`: one order of the walk and two
      interleavings that return, with the copied file and with the plaintext written into it. */
  lemma SharedDestinationRaces(a: Aead, key: Bytes, iv: Bytes, decrypted: Bytes, copied: Bytes)
    requires ValidKey(key) && |iv| == IV_LEN && 0 < |decrypted| <= CHUNK_LEN && |copied| < TWO64
    ensures PacketCount(|decrypted|) == 1
    ensures var files := map[["x"] := copied, ["x.enc"] := EncodeFile(a, key, [iv], decrypted)];
            var src, order := FileSystem({[]}, files), [["x.enc"], ["x"]];
            && ValidTree(files) && Representable(files) && Enumerates(order, files)
            && DecryptToDir(a, key, src, order, EMPTY, [0, 1, 1, 1, 0]) == Returned(Holding(["x"], copied))
            && DecryptToDir(a, key, src, order, EMPTY, [0, 1, 0, 1, 1]) ==
                 Returned(Holding(["x"], WriteAt(copied, 0, decrypted)))
  {
    OneBlock(a, key, iv, decrypted);
    SharedRuns(a, key, EncodeFile(a, key, [iv], decrypted), decrypted, copied);
  }

  lemma SharedRuns(a: Aead, key: Bytes, file: Bytes, decrypted: Bytes, copied: Bytes)
    requires |copied| < TWO64 && |file| < TWO64
    requires DecodeFile(a, key, file).Ok? && Plaintexts(a, key, BlocksOf(file)) == [decrypted]
    ensures var files := map[["x"] := copied, ["x.enc"] := file];
            var src, order := FileSystem({[]}, files), [["x.enc"], ["x"]];
            && ValidTree(files) && Representable(files) && Enumerates(order, files)
            && DecryptToDir(a, key, src, order, EMPTY, [0, 1, 1, 1, 0]) == Returned(Holding(["x"], copied))
            && DecryptToDir(a, key, src, order, EMPTY, [0, 1, 0, 1, 1]) ==
                 Returned(Holding(["x"], WriteAt(copied, 0, decrypted)))
  {
    SharedTree(a, key, file, decrypted, copied);
    TwoOutcomes(["x"], decrypted, copied);
  }

  lemma TwoOutcomes(d: Path, decrypted: Bytes, copied: Bytes)
    requires |d| == 1
    ensures var jobs := TwoJobs(d, decrypted, copied);
            && RunJobs(jobs, EMPTY, [0, 1, 1, 1, 0]) == Returned(Holding(d, copied))
            && RunJobs(jobs, EMPTY, [0, 1, 0, 1, 1]) == Returned(Holding(d, WriteAt(copied, 0, decrypted)))
  {
    CopyLast(d, decrypted, copied);
    CopyBetween(d, decrypted, copied);
  }

  lemma SharedNames()
    ensures Extension("x.enc") == ENC_SUFFIX && Extension("x") == ""
    ensures Parent(["x.enc"]) == [] && Parent(["x"]) == [] && DecDest(["x.enc"]) == ["x"] && DecDest(["x"]) == ["x"]
  {
    AppendedDest("x");
    assert "x" + ENC_SUFFIX == "x.enc";
    NoDot("x");
  }

  lemma AppendedDest(name: string)
    requires name != ""
    ensures Extension(name + ENC_SUFFIX) == ENC_SUFFIX && Parent([name + ENC_SUFFIX]) == []
    ensures DecDest([name + ENC_SUFFIX]) == [name]
  {
    SuffixRoundTrip(name);
  }

  lemma NoDot(name: string)
    requires '.' !in name
    ensures Extension(name) == "" && Parent([name]) == [] && DecDest([name]) == [name]
  {
    assert LastDot(name).None?;
  }

  lemma SharedTreeValid(file: Bytes, copied: Bytes)
    requires |copied| < TWO64 && |file| < TWO64
    ensures var files := map[["x"] := copied, ["x.enc"] := file];
            ValidTree(files) && Representable(files) && Enumerates([["x.enc"], ["x"]], files)
  {
    SharedNames();
    var order := [["x.enc"], ["x"]];
    assert order[0] == ["x.enc"] && order[1] == ["x"] && |"x.enc"| == 5;
  }

  lemma SharedTree(a: Aead, key: Bytes, file: Bytes, decrypted: Bytes, copied: Bytes)
    requires |copied| < TWO64 && |file| < TWO64
    requires DecodeFile(a, key, file).Ok? && Plaintexts(a, key, BlocksOf(file)) == [decrypted]
    ensures var files := map[["x"] := copied, ["x.enc"] := file];
            var order := [["x.enc"], ["x"]];
            && ValidTree(files) && Representable(files) && Enumerates(order, files)
            && DecryptJobs(a, key, order, files) == TwoJobs(["x"], decrypted, copied)
  {
    SharedNames();
    SharedTreeValid(file, copied);
    assert DecryptJob(a, key, ["x.enc"], file) == Job(["x"], true, true, [decrypted], true);
    assert DecryptJob(a, key, ["x"], copied) == Job(["x"], false, true, [copied], true);
  }

  /******* There and back *******/

  ghost predicate SmallEnough(files: Files) {
    forall p :: p in files ==> PacketCount(|files[p]|) * BLOCK_LEN < TWO64
  }

  lemma ContainerRestores(a: Aead, key: Bytes, ivs: seq<Bytes>, p: Path, data: Bytes)
    requires p != [] && !NoFileName(Name(p)) && ValidKey(key) && data != []
    requires ValidIvs(ivs, PacketCount(|data|)) && PacketCount(|data|) * BLOCK_LEN < TWO64
    ensures var q, file := EncDest(p), EncodeFile(a, key, ivs, data);
            && !NoFileName(Name(q)) && Extension(Name(q)) == ENC_SUFFIX && DecDest(q) == p
            && |file| < TWO64 && DecodeFile(a, key, file) == Ok(data)
  {
    DestRoundTrip(p);
    EncodedIsRepresentable(a, key, ivs, data);
    RoundTrip(a, key, ivs, data);
  }

  lemma OutEntry(a: Aead, key: Bytes, ivs: map<Path, seq<Bytes>>, files: Files, out: Files, q: Path)
    requires ValidTree(files) && IvsFor(ivs, files) && SmallEnough(files)
    requires IsEncryptionOf(a, key, ivs, files, out) && q in out
    ensures q != [] && !NoFileName(Name(q)) && |out[q]| < TWO64 && Extension(Name(q)) == ENC_SUFFIX
    ensures DecDest(q) in files && EncDest(DecDest(q)) == q && DecodeFile(a, key, out[q]) == Ok(files[DecDest(q)])
  {
    assert GoesTo(files, q);
    var p :| p in files && q == EncDest(p);
    ContainerRestores(a, key, ivs[p], p, files[p]);
  }

  lemma EncryptedTreeValid(a: Aead, key: Bytes, ivs: map<Path, seq<Bytes>>, files: Files, out: Files)
    requires ValidTree(files) && IvsFor(ivs, files) && SmallEnough(files) && NoEncCollision(files)
    requires IsEncryptionOf(a, key, ivs, files, out)
    ensures ValidTree(out) && Representable(out)
  {
    forall q | q in out ensures q != [] && !NoFileName(Name(q)) && |out[q]| < TWO64 {
      OutEntry(a, key, ivs, files, out, q);
    }
    forall q, r | q in out && r in out ensures !(q <= Parent(r)) {
      OutEntry(a, key, ivs, files, out, q);
      OutEntry(a, key, ivs, files, out, r);
      assert !(EncDest(DecDest(q)) <= Parent(DecDest(r)));
    }
  }

  /** The containers of a tree can be decrypted, and only to that tree. */
  lemma EncryptionRestores(a: Aead, key: Bytes, ivs: map<Path, seq<Bytes>>, files: Files, out: Files)
    requires ValidTree(files) && IvsFor(ivs, files) && SmallEnough(files) && NoEncCollision(files)
    requires IsEncryptionOf(a, key, ivs, files, out)
    ensures ValidTree(out) && Representable(out) && Decryptable(a, key, out) && SharersAgree(a, key, out)
  {
    EncryptedTreeValid(a, key, ivs, files, out);
    forall q | q in out
      ensures DecDest(q) in files && EncDest(DecDest(q)) == q && Plain(a, key, q, out[q]).Ok?
    {
      OutEntry(a, key, ivs, files, out, q);
    }
    forall q, r | q in out && r in out ensures !(DecDest(q) <= Parent(r)) {
      assert DecDest(q) in files && DecDest(r) in files && Parent(DecDest(r)) == Parent(r);
    }
  }

  lemma OriginalEntry(a: Aead, key: Bytes, ivs: map<Path, seq<Bytes>>, files: Files, out: Files, result: Files, p: Path)
    requires ValidTree(files) && IvsFor(ivs, files) && SmallEnough(files) && ValidTree(out) && Representable(out)
    requires IsEncryptionOf(a, key, ivs, files, out) && IsDecryptionOf(a, key, out, result) && p in files
    ensures p in result && result[p] == files[p]
  {
    var q := EncDest(p);
    ContainerRestores(a, key, ivs[p], p, files[p]);
    assert q in out && Plain(a, key, q, out[q]) == Ok(result[DecDest(q)]);
  }

  lemma DecryptionIsOriginal(a: Aead, key: Bytes, ivs: map<Path, seq<Bytes>>, files: Files, out: Files, result: Files)
    requires ValidTree(files) && IvsFor(ivs, files) && SmallEnough(files) && ValidTree(out) && Representable(out)
    requires IsEncryptionOf(a, key, ivs, files, out) && IsDecryptionOf(a, key, out, result)
    ensures result == files
  {
    forall p | p in files ensures p in result && result[p] == files[p] {
      OriginalEntry(a, key, ivs, files, out, result, p);
    }
    forall p | p in result ensures p in files {
      assert ComesFrom(out, p);
      var q :| q in out && p == DecDest(q);
      OutEntry(a, key, ivs, files, out, q);
    }
  }

  /** What decrypting a source must come to: the files again if it exists, an exception if it does not. */
  ghost predicate Restores(outcome: Outcome, files: Files, present: bool) {
    if present then outcome.Running? || (outcome.Returned? && outcome.fs.files == files) else outcome.Threw?
  }

  lemma DecryptedRun(a: Aead, key: Bytes, ivs: map<Path, seq<Bytes>>, files: Files, out: FileSystem,
                     order: seq<Path>, dest: FileSystem, schedule: seq<nat>)
    requires ValidTree(files) && IvsFor(ivs, files) && SmallEnough(files) && NoEncCollision(files)
    requires IsEncryptionOf(a, key, ivs, files, out.files) && Enumerates(order, out.files) && Fresh(dest)
    ensures ValidTree(out.files) && Representable(out.files)
    ensures Restores(DecryptToDir(a, key, out, order, dest, schedule), files, Present(out))
  {
    EncryptionRestores(a, key, ivs, files, out.files);
    DecryptToDirIff(a, key, out, order, dest, schedule);
    match DecryptToDir(a, key, out, order, dest, schedule)
    case Returned(result) => DecryptionIsOriginal(a, key, ivs, files, out.files, result.files);
    case _ =>
  }

  /** Encrypting a tree and decrypting the result gives back the same paths and bytes, whatever
      the order of the two walks and however the tasks of each interleave, exactly when there was a
      file to encrypt or the first destination existed before; otherwise decrypting throws. */
  lemma TreeRoundTrip(a: Aead, key: Bytes, ivs: map<Path, seq<Bytes>>, src: FileSystem, order: seq<Path>,
                      dest: FileSystem, schedule: seq<nat>, out: FileSystem)
    requires ValidTree(src.files) && Enumerates(order, src.files) && IvsFor(ivs, src.files)
    requires SmallEnough(src.files) && Fresh(dest)
    requires EncryptToDir(a, key, ivs, src, order, dest, schedule) == Returned(out)
    ensures ValidTree(out.files) && Representable(out.files)
    ensures forall order', dest', schedule' :: Enumerates(order', out.files) && Fresh(dest') ==>
              Restores(DecryptToDir(a, key, out, order', dest', schedule'), src.files,
                       src.files != map[] || Present(dest))
  {
    EncryptToDirIff(a, key, ivs, src, order, dest, schedule);
    EncryptedTreeValid(a, key, ivs, src.files, out.files);
    forall order', dest', schedule' | Enumerates(order', out.files) && Fresh(dest')
      ensures Restores(DecryptToDir(a, key, out, order', dest', schedule'), src.files,
                       src.files != map[] || Present(dest))
    {
      DecryptedRun(a, key, ivs, src.files, out, order', dest', schedule');
    }
  }

  /** An empty directory encrypted to a path that does not exist: nothing is made there, and decrypting
      from it throws. */
  lemma EmptyTreeLost(a: Aead, key: Bytes, dest: FileSystem)
    ensures EncryptToDir(a, key, map[], FileSystem({[]}, map[]), [], EMPTY, []) == Returned(EMPTY)
    ensures DecryptToDir(a, key, EMPTY, [], dest, []) == Threw
  {}
}
