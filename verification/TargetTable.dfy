/**
 The standard client targets, manifest values, and paths as pathlib reads them. What the allocator and
 the migration need of the table of targets is a predicate, which the real table meets.
 */
module TargetTable {
  import opened Bytes

  type Parts = seq<string>

  datatype Spec = Spec(name: string, zedTarget: string, canonicalDir: Parts, aliases: seq<Parts>, adapter: string,
                       runtime: Option<string>, zedAliases: seq<string>, publish: bool)

  /** A TOML value: text, a table, or anything else. */
  datatype Value = Text(text: string) | Other(id: int) | Table(entries: map<string, Value>)

  type Targets = map<string, Value>

  // ----- Paths -----

  /** A path as pathlib keeps it: empty and `.` parts are dropped, `..` is not. */
  datatype Dir = Dir(absolute: bool, parts: Parts)

  function Flush(part: string): Parts {
    if part == "" || part == "." then [] else [part]
  }

  function ScanParts(s: string, part: string): Parts {
    if s == "" then Flush(part)
    else if s[0] == '/' then Flush(part) + ScanParts(s[1..], "")
    else ScanParts(s[1..], part + [s[0]])
  }

  function ParseDir(s: string): Dir {
    Dir(s != "" && s[0] == '/', ScanParts(s, ""))
  }

  /** `as_posix` of a relative path. */
  function Posix(parts: Parts): string {
    if parts == [] then "." else if |parts| == 1 then parts[0] else parts[0] + "/" + Posix(parts[1..])
  }

  predicate ProperPart(p: string) {
    p != "" && p != "." && forall i :: 0 <= i < |p| ==> p[i] != '/'
  }

  predicate Proper(parts: Parts) {
    forall i :: 0 <= i < |parts| ==> ProperPart(parts[i])
  }

  lemma {:induction false} ScanWord(word: string, rest: string, part: string)
    requires forall i :: 0 <= i < |word| ==> word[i] != '/'
    ensures ScanParts(word + rest, part) == ScanParts(rest, part + word)
  {
    if word == "" {
      assert "" + rest == rest && part + "" == part;
    } else {
      assert (word + rest)[0] == word[0] && (word + rest)[1..] == word[1..] + rest;
      ScanWord(word[1..], rest, part + [word[0]]);
      assert part + [word[0]] + word[1..] == part + word;
    }
  }

  lemma {:induction false} PosixScans(parts: Parts)
    requires Proper(parts) && parts != []
    ensures ScanParts(Posix(parts), "") == parts
    ensures Posix(parts) != "" && Posix(parts)[0] != '/'
  {
    var p := parts[0];
    if |parts| == 1 {
      ScanWord(p, "", "");
      assert p + "" == p && "" + p == p;
      assert parts == [p];
    } else {
      PosixScans(parts[1..]);
      var rest := "/" + Posix(parts[1..]);
      assert Posix(parts) == p + rest;
      ScanWord(p, rest, "");
      assert "" + p == p;
      assert rest[1..] == Posix(parts[1..]);
      assert parts == [p] + parts[1..];
    }
  }

  /** Writing a relative path as text and reading it back. */
  lemma PosixRoundTrip(parts: Parts)
    requires Proper(parts)
    ensures ParseDir(Posix(parts)) == Dir(false, parts)
  {
    if parts == [] {
      assert ScanParts(".", "") == ScanParts("", "" + ['.']);
      assert "" + ['.'] == ".";
    } else {
      PosixScans(parts);
    }
  }

  // ----- The table -----

  function T(name: string, zedTarget: string, dir: string, aliases: seq<Parts>, adapter: string,
             zedAliases: seq<string>): Spec {
    Spec(name, zedTarget, ["clients", dir], aliases, adapter, None, zedAliases, true)
  }

  function R(name: string, runtime: string, adapter: string, zedAliases: seq<string>, publish: bool): Spec {
    Spec(name, "nodejs", ["clients", "typescript", runtime], [["clients", "typescript"]], adapter, Some(runtime),
         zedAliases, publish)
  }

  const TARGETS: seq<Spec> := [
    T("c", "c", "c", [], "none", []),
    T("cpp", "cpp", "cpp", [["clients", "cxx"]], "none", ["cxx"]),
    T("zig", "zig", "zig", [], "none", []),
    T("wasm", "rust-wasm", "wasm", [], "node", []),
    T("gleamlang", "gleam", "gleamlang", [["clients", "gleam"]], "none", ["gleamlang"]),
    T("erlang", "erlang", "erlang", [], "none", []),
    T("elixir", "elixir", "elixir", [], "none", []),
    T("dart", "dart", "dart", [], "none", []),
    T("rust", "rust", "rust", [], "none", []),
    T("java", "java", "java", [], "java", []),
    T("golang", "golang", "golang", [["clients", "go"]], "none", ["go"]),
    T("python3", "python", "python3", [["clients", "python"]], "none", ["python3"]),
    T("ruby", "ruby", "ruby", [], "none", []),
    T("php", "php", "php", [], "none", []),
    T("kotlin", "kotlin", "kotlin", [], "java", []),
    T("swift", "swift", "swift", [], "none", []),
    R("typescript-nodejs", "nodejs", "node", ["typescript-nodejs", "typescript"], true),
    R("typescript-deno", "deno", "none", ["typescript-deno", "deno"], false),
    R("typescript-bun", "bun", "node", ["typescript-bun", "bun"], false),
    R("typescript-edge", "edge", "none", ["typescript-edge", "edge"], false)]

  /** Distinct names and canonical directories without `..`. */
  predicate DistinctTargets(specs: seq<Spec>) {
    && (forall i, j :: 0 <= i < j < |specs| ==>
        specs[i].name != specs[j].name && specs[i].canonicalDir != specs[j].canonicalDir)
    && forall i :: 0 <= i < |specs| ==> Plain(specs[i].canonicalDir)
  }

  predicate Plain(parts: Parts) {
    Proper(parts) && forall i :: 0 <= i < |parts| ==> parts[i] != ".."
  }

  /**
   Published targets come first and have names of their own; alias names are nobody's target name, and
   no two specs, and no spec twice, share one.
   */
  predicate DistinctKeys(specs: seq<Spec>) {
    && (forall i, j :: 0 <= i < j < |specs| && specs[j].publish ==>
        specs[i].publish && specs[i].zedTarget != specs[j].zedTarget)
    && (forall i, j :: 0 <= i < |specs| && 0 <= j < |specs| && specs[i].publish ==>
        specs[i].zedTarget !in specs[j].zedAliases)
    && (forall i, j :: 0 <= i < j < |specs| ==> forall a :: a in specs[i].zedAliases ==> a !in specs[j].zedAliases)
  }
}
