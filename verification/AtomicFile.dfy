/**
 The Go client's atomic file replacement, as file-system steps each of which may fail. A fault schedule
 fixes what fails; the trace of a run holds the files after every step, and after every octet written.
 */
module AtomicFile {
  import opened Bytes

  /** An absolute, cleaned path: its directory and its last element. */
  datatype Path = Path(dir: string, name: string)

  type Content = seq<Byte>
  type Files = map<Path, Content>

  /**
   What goes wrong, step by step. A failing write gives up after some octets. `random` is the number the
   system draws for the name of the temporary file.
   */
  datatype Faults = Faults(abs: bool, mkdir: bool, create: bool, write: Option<nat>, sync: bool, chmod: bool,
                           close: bool, rename: bool, remove: bool, random: U32)

  type U32 = x: int | 0 <= x < 0x1_0000_0000

  const PREFIX := ".zed-artifact-"

  /** The temporary file: beside the destination, the prefix and the drawn number in decimal. */
  function Temp(dest: Path, f: Faults): Path {
    Path(dest.dir, PREFIX + Digits(f.random))
  }

  function Look(fs: Files, p: Path): Option<Content> {
    if p in fs then Some(fs[p]) else None
  }

  /** The states of a file that grows octet by octet from `k` to `n` octets. */
  function Growing(fs: Files, p: Path, content: Content, k: nat, n: nat): seq<Files>
    requires k <= n <= |content|
    decreases n - k
  {
    if k == n then [] else [fs[p := content[..k + 1]]] + Growing(fs, p, content, k + 1, n)
  }

  predicate NotStarted(f: Faults) { f.abs || f.mkdir || f.create }

  predicate WriteFails(f: Faults, payload: Content) {
    f.write.Some? && f.write.value < |payload|
  }

  function Written(f: Faults, payload: Content): nat {
    if WriteFails(f, payload) then f.write.value else |payload|
  }

  predicate Fails(f: Faults, payload: Content) {
    NotStarted(f) || WriteFails(f, payload) || f.sync || f.chmod || f.close || f.rename
  }

  function Final(fs: Files, dest: Path, payload: Content, f: Faults): Files {
    if NotStarted(f) then fs
    else if !Fails(f, payload) then (fs - {Temp(dest, f)})[dest := payload]
    else if f.remove then fs[Temp(dest, f) := payload[..Written(f, payload)]]
    else fs - {Temp(dest, f)}
  }

  /** Every state a run goes through after the first. */
  function Trace(fs: Files, dest: Path, payload: Content, f: Faults): seq<Files> {
    if NotStarted(f) then []
    else [fs[Temp(dest, f) := []]] + Growing(fs, Temp(dest, f), payload, 0, Written(f, payload))
         + if Fails(f, payload) && f.remove then [] else [Final(fs, dest, payload, f)]
  }

  // ----- The system and the client -----

  /** The files, and every state they have been in. */
  class FileSystem {
    var files: Files
    var history: seq<Files>

    constructor (files: Files)
      ensures this.files == files && history == []
    {
      this.files := files;
      history := [];
    }

    method CreateTemp(fault: bool, name: Path) returns (ok: bool)
      modifies this
      ensures ok <==> !fault
      ensures ok ==> files == old(files)[name := []] && history == old(history) + [files]
      ensures !ok ==> files == old(files) && history == old(history)
    {
      if fault {
        return false;
      }
      files := files[name := []];
      history := history + [files];
      return true;
    }

    /** Writes octet by octet until the payload or the schedule ends. */
    method Write(name: Path, payload: Content, fault: Option<nat>) returns (ok: bool)
      requires name in files && files[name] == []
      modifies this
      ensures ok <==> !(fault.Some? && fault.value < |payload|)
      ensures var n := if ok then |payload| else fault.value;
              && files == old(files)[name := payload[..n]]
              && history == old(history) + Growing(old(files), name, payload, 0, n)
    {
      var stop := if fault.Some? && fault.value < |payload| then fault.value else |payload|;
      var count := 0;
      while count < stop
        invariant 0 <= count <= stop <= |payload|
        invariant files == old(files)[name := payload[..count]]
        invariant history + Growing(old(files), name, payload, count, stop) == old(history)
          + Growing(old(files), name, payload, 0, stop)
      {
        ghost var before := history;
        files := files[name := payload[..count + 1]];
        assert files == old(files)[name := payload[..count + 1]];
        history := history + [files];
        assert history + Growing(old(files), name, payload, count + 1, stop) == before
          + ([files] + Growing(old(files), name, payload, count + 1, stop));
        count := count + 1;
      }
      return stop == |payload|;
    }

    method Rename(from: Path, to: Path, fault: bool) returns (ok: bool)
      requires from in files
      modifies this
      ensures ok <==> !fault
      ensures ok ==> files == (old(files) - {from})[to := old(files)[from]] && history == old(history) + [files]
      ensures !ok ==> files == old(files) && history == old(history)
    {
      if fault {
        return false;
      }
      var content := files[from];
      files := (files - {from})[to := content];
      history := history + [files];
      return true;
    }

    method Remove(name: Path, fault: bool)
      modifies this
      ensures files == (if fault then old(files) else old(files) - {name})
      ensures history == (if fault then old(history) else old(history) + [files])
    {
      if !fault {
        files := files - {name};
        history := history + [files];
      }
    }
  }

  /** Temporary file, write, sync, mode, close, rename; whatever was not committed is removed on the way out. */
  method WriteFileAtomic(os: FileSystem, dest: Path, payload: Content, f: Faults) returns (ok: bool)
    requires Temp(dest, f) !in os.files
    modifies os
    ensures ok <==> !Fails(f, payload)
    ensures os.files == Final(old(os.files), dest, payload, f)
    ensures os.history == old(os.history) + Trace(old(os.files), dest, payload, f)
  {
    if f.abs || f.mkdir {
      return false;
    }
    var created := os.CreateTemp(f.create, Temp(dest, f));
    if !created {
      return false;
    }
    ghost var fs := old(os.files);
    GrowsFrom(fs, Temp(dest, f), payload, 0, Written(f, payload));
    var committed := false;
    ok := false;
    label steps: {
      var written := os.Write(Temp(dest, f), payload, f.write);
      assert os.files == fs[Temp(dest, f) := payload[..Written(f, payload)]];
      if !written {
        break steps;
      }
      if f.sync {
        break steps;
      }
      if f.chmod {
        break steps;
      }
      if f.close {
        break steps;
      }
      var renamed := os.Rename(Temp(dest, f), dest, f.rename);
      if !renamed {
        break steps;
      }
      committed := true;
      ok := true;
      assert payload[..|payload|] == payload;
      assert os.files == (fs - {Temp(dest, f)})[dest := payload];
    }
    if !committed {
      os.Remove(Temp(dest, f), f.remove);
      assert !f.remove ==> os.files == fs - {Temp(dest, f)};
    }
  }

  /** Overwriting the fresh empty file is the same as writing it. */
  lemma {:induction false} GrowsFrom(fs: Files, p: Path, content: Content, k: nat, n: nat)
    requires k <= n <= |content|
    ensures Growing(fs[p := []], p, content, k, n) == Growing(fs, p, content, k, n)
    decreases n - k
  {
    if k < n {
      GrowsFrom(fs, p, content, k + 1, n);
      assert fs[p := []][p := content[..k + 1]] == fs[p := content[..k + 1]];
    }
  }

  // ----- Safety -----

  /** The destination is as it was, or holds the complete payload. */
  predicate OldOrNew(fs: Files, s: Files, dest: Path, payload: Content) {
    Look(s, dest) == Look(fs, dest) || Look(s, dest) == Some(payload)
  }

  /** Only the destination and the temporary file can differ. */
  predicate OthersKept(fs: Files, s: Files, dest: Path, temp: Path) {
    s - {dest, temp} == fs - {dest, temp}
  }

  lemma {:induction false} GrowingStates(fs: Files, p: Path, content: Content, k: nat, n: nat, s: Files)
    requires k <= n <= |content| && s in Growing(fs, p, content, k, n)
    ensures exists i :: k < i <= n && s == fs[p := content[..i]]
    decreases n - k
  {
    if s != Growing(fs, p, content, k, n)[0] {
      assert s in Growing(fs, p, content, k, n)[1..];
      GrowingStates(fs, p, content, k + 1, n, s);
    } else {
      assert s == fs[p := content[..k + 1]];
    }
  }

  /** The states of a run: the temporary file holds a part of the payload, or the run has ended. */
  lemma TraceStates(fs: Files, dest: Path, payload: Content, f: Faults, s: Files)
    requires s in Trace(fs, dest, payload, f)
    ensures (exists i :: 0 <= i <= |payload| && s == fs[Temp(dest, f) := payload[..i]])
      || s == Final(fs, dest, payload, f)
  {
    var growing := Growing(fs, Temp(dest, f), payload, 0, Written(f, payload));
    if s == fs[Temp(dest, f) := []] {
      assert s == fs[Temp(dest, f) := payload[..0]];
    } else if s in growing {
      GrowingStates(fs, Temp(dest, f), payload, 0, Written(f, payload), s);
    }
  }

  /**
   Under one fault schedule every state shows the old destination or the whole payload, and touches no
   other file; that is, unless the temporary file has the destination's own name.
   */
  lemma StatesOfRun(fs: Files, dest: Path, payload: Content, f: Faults)
    requires Temp(dest, f) !in fs
    ensures forall s :: s in Trace(fs, dest, payload, f) ==> OthersKept(fs, s, dest, Temp(dest, f))
    ensures (forall s :: s in Trace(fs, dest, payload, f) ==> OldOrNew(fs, s, dest, payload))
            <==> NotStarted(f) || Temp(dest, f) != dest || payload == []
  {
    hide Digits, PREFIX;
    forall s | s in Trace(fs, dest, payload, f)
      ensures OthersKept(fs, s, dest, Temp(dest, f))
      ensures Temp(dest, f) != dest || payload == [] ==> OldOrNew(fs, s, dest, payload)
    {
      TraceStates(fs, dest, payload, f, s);
      if i :| 0 <= i <= |payload| && s == fs[Temp(dest, f) := payload[..i]] {
        assert payload == [] ==> payload[..i] == [];
      }
    }
    if !NotStarted(f) && Temp(dest, f) == dest && payload != [] {
      var s := fs[Temp(dest, f) := []];
      assert s in Trace(fs, dest, payload, f);
      assert !OldOrNew(fs, s, dest, payload);
    }
  }

  /** A name the system may pick for a temporary file. */
  ghost predicate Pickable(name: string) {
    exists n: U32 :: name == PREFIX + Digits(n)
  }

  /** Those are the prefix followed by a 32-bit number in decimal. */
  lemma PickableNames(name: string)
    ensures Pickable(name) <==>
      |name| > 14 && name[..14] == ".zed-artifact-" && Decimal(name[14..]) && NumberOf(name[14..]) < 0x1_0000_0000
  {
    var rest := if |name| > 14 then name[14..] else "";
    if Pickable(name) {
      var n: U32 :| name == PREFIX + Digits(n);
      DigitsBack(n);
      hide Digits, Decimal;
      assert name[14..] == Digits(n);
    }
    if |name| > 14 && name[..14] == ".zed-artifact-" && Decimal(rest) && NumberOf(rest) < 0x1_0000_0000 {
      NumberBack(rest);
      hide Digits, Decimal;
      assert name == PREFIX + Digits(NumberOf(rest));
    }
  }

  /** No state of the run shows the destination half written. */
  ghost predicate NeverHalf(fs: Files, dest: Path, payload: Content, f: Faults) {
    forall s :: s in Trace(fs, dest, payload, f) ==> OldOrNew(fs, s, dest, payload)
  }

  /**
   Before the call: no schedule whatever can show the destination half written exactly when it exists, or
   there is nothing to write, or its name is none the system may pick for the temporary file.
   */
  lemma EveryStateOldOrNew(fs: Files, dest: Path, payload: Content)
    ensures (forall f: Faults :: Temp(dest, f) !in fs ==> NeverHalf(fs, dest, payload, f))
            <==> dest in fs || payload == [] || !Pickable(dest.name)
  {
    hide Trace, OldOrNew, Digits, PREFIX;
    forall f: Faults | Temp(dest, f) !in fs
      ensures NeverHalf(fs, dest, payload, f) <==> NotStarted(f) || Temp(dest, f) != dest || payload == []
    {
      StatesOfRun(fs, dest, payload, f);
    }
    if dest !in fs && payload != [] && Pickable(dest.name) {
      var n: U32 :| dest.name == PREFIX + Digits(n);
      var f := Faults(false, false, false, None, false, false, false, false, false, n);
      assert Temp(dest, f) == dest;
      assert !NeverHalf(fs, dest, payload, f);
    }
  }

  /**
   How a run ends: complete, or as it began, or with nothing but the temporary file left when it could not be
   removed.
   */
  lemma Ending(fs: Files, dest: Path, payload: Content, f: Faults)
    requires Temp(dest, f) !in fs
    ensures var t := Final(fs, dest, payload, f);
            && (!Fails(f, payload) ==> t == fs[dest := payload])
            && (Fails(f, payload) && !f.remove ==> t == fs)
            && (Fails(f, payload) ==> t - {Temp(dest, f)} == fs)
    ensures Trace(fs, dest, payload, f) != [] ==>
      Trace(fs, dest, payload, f)[|Trace(fs, dest, payload, f)| - 1] == Final(fs, dest, payload, f)
  {
    assert fs - {Temp(dest, f)} == fs;
    LastGrown(fs, Temp(dest, f), payload, 0, Written(f, payload));
  }

  lemma {:induction false} LastGrown(fs: Files, p: Path, content: Content, k: nat, n: nat)
    requires k <= n <= |content|
    ensures var g := [fs[p := content[..k]]] + Growing(fs, p, content, k, n); g[|g| - 1] == fs[p := content[..n]]
    decreases n - k
  {
    if k < n {
      LastGrown(fs, p, content, k + 1, n);
    }
  }

  // ----- Verify, then write -----

  const MAX_ARTIFACT_BYTES: int := 104857600
  const DOWNLOAD_SLACK: int := 1048576

  /** The declared size and some slack, under the ceiling; the ceiling when no size is declared. */
  function DownloadLimit(size: nat): nat {
    if size > 0 && size + DOWNLOAD_SLACK < MAX_ARTIFACT_BYTES then size + DOWNLOAD_SLACK else MAX_ARTIFACT_BYTES
  }

  function Lower(c: char): char {
    if 'A' <= c <= 'Z' then (c as int + 32) as char else c
  }

  /** Equality of hexadecimal text without regard to case. */
  predicate EqualFold(a: string, b: string) {
    |a| == |b| && forall i :: 0 <= i < |a| ==> Lower(a[i]) == Lower(b[i])
  }

  predicate LowerHex(s: string) {
    forall i :: 0 <= i < |s| ==> '0' <= s[i] <= '9' || 'a' <= s[i] <= 'f'
  }

  /** One character, or the two cases of one ASCII letter. */
  predicate SameLetter(x: char, y: char) {
    x == y || ('a' <= x <= 'z' && y as int == x as int - 32) || ('A' <= x <= 'Z' && y as int == x as int + 32)
  }

  /** Letter by letter; and for lower-case hexadecimal text, equality. */
  lemma FoldedEqual(a: string, b: string)
    ensures EqualFold(a, b) <==> |a| == |b| && forall i :: 0 <= i < |a| ==> SameLetter(a[i], b[i])
    ensures LowerHex(a) && LowerHex(b) ==> (EqualFold(a, b) <==> a == b)
  {}

  /** Two digests in hexadecimal of any case pass exactly when digit by digit they have the same value. */
  lemma FoldedDigits(a: string, b: string)
    requires forall i :: 0 <= i < |a| ==> HexValue(a[i] as int).Some?
    requires forall i :: 0 <= i < |b| ==> HexValue(b[i] as int).Some?
    ensures EqualFold(a, b) <==>
      |a| == |b| && forall i :: 0 <= i < |a| ==> HexValue(a[i] as int) == HexValue(b[i] as int)
  {
    if |a| == |b| {
      forall i | 0 <= i < |a|
        ensures Lower(a[i]) == Lower(b[i]) <==> HexValue(a[i] as int) == HexValue(b[i] as int)
      {}
    }
  }

  /** The limit is a hundred mebibytes, or the declared size and one more where that is less. */
  lemma DownloadLimits(size: nat)
    ensures size == 0 ==> DownloadLimit(size) == 104857600
    ensures 0 < size <= 103809024 ==> DownloadLimit(size) == size + 1048576
    ensures size >= 103809024 ==> DownloadLimit(size) == 104857600
  {}

  /** A response: its status, declared length (negative when unknown), body, and whether reading it fails. */
  datatype Response = Response(status: int, contentLength: int, body: Content, readFails: bool)

  datatype Download = Downloaded | ApiError | TooLarge | Mismatch | WriteFailed

  /** A good status, and a body that could be read and is as declared and in fact within the limit. */
  predicate Received(r: Response, size: nat) {
    200 <= r.status <= 299 && !r.readFails && r.contentLength <= DownloadLimit(size)
    && |r.body| <= DownloadLimit(size)
  }

  /** Status, declared length, bounded read and digest are checked before a single file is touched. */
  method DownloadArtifact(os: FileSystem, response: Response, sha256: string, size: nat, dest: Path,
                          hash: Content -> string, f: Faults)
    returns (r: Download)
    requires Temp(dest, f) !in os.files
    modifies os
    ensures r == Downloaded ==> os.files == old(os.files)[dest := response.body]
    ensures r == Downloaded && LowerHex(hash(response.body)) && LowerHex(sha256) ==> hash(response.body) == sha256
    ensures r == Downloaded <==> Received(response, size) && EqualFold(hash(response.body), sha256)
                                 && !Fails(f, response.body)
    ensures r == ApiError <==> response.status < 200 || response.status > 299
    ensures r == TooLarge <==> 200 <= response.status <= 299 && !Received(response, size)
    ensures r == Mismatch <==> Received(response, size) && !EqualFold(hash(response.body), sha256)
    ensures r != Downloaded && r != WriteFailed ==> os.files == old(os.files) && os.history == old(os.history)
    ensures r == WriteFailed ==> os.files - {Temp(dest, f)} == old(os.files)
  {
    if response.status < 200 || response.status >= 300 {
      return ApiError;
    }
    var limit := DownloadLimit(size);
    if response.contentLength > limit {
      return TooLarge;
    }
    var payload := Take(limit + 1, response.body);
    if response.readFails || |payload| > limit {
      return TooLarge;
    }
    assert payload == response.body;
    var actual := hash(payload);
    FoldedEqual(actual, sha256);
    if !EqualFold(actual, sha256) {
      return Mismatch;
    }
    Ending(os.files, dest, payload, f);
    var ok := WriteFileAtomic(os, dest, payload, f);
    return if ok then Downloaded else WriteFailed;
  }
}
