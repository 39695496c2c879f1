// The evidence-bundle check: SHA256SUMS against the files below the bundle.
// Source: tools/evidencebaseline/main.go (checkBundle and what it calls).
module EvidenceBundle {
  import opened Errors
  import opened EvidenceTree

  datatype Finding = Finding(path: string, problem: Problem)

  // ----- SHA256SUMS -----

  datatype Entry = Entry(hash: string, path: string)

  predicate IsSpace(c: char) { c in " \t\n\r" || c == 11 as char || c == 12 as char }

  predicate Blank(line: string) { forall i | 0 <= i < |line| :: IsSpace(line[i]) }

  /** Spaces and the five control characters from tab to carriage return. */
  lemma BlankExactly(line: string)
    ensures forall c :: IsSpace(c) <==> c == ' ' || 9 <= c as int <= 13
    ensures Blank(line) <==> forall i | 0 <= i < |line| :: line[i] == ' ' || 9 <= line[i] as int <= 13
  {
  }

  predicate LowerHex(s: string)
  {
    |s| == 64 && forall i | 0 <= i < |s| :: '0' <= s[i] <= '9' || 'a' <= s[i] <= 'f'
  }

  predicate NoWhitespace(s: string) { forall i | 0 <= i < |s| :: s[i] !in " \t\r\n" }

  /** Text mode: 64 lowercase hex digits, two spaces, a safe relative path. */
  predicate GoodLine(line: string)
  {
    && |line| >= 67 && line[64] == line[65] == ' '
    && LowerHex(line[..64])
    && NoWhitespace(line[66..]) && line[66] != '*' && SafeSlashPath(line[66..], false)
  }

  function EntryOf(line: string): Entry
    requires |line| >= 66
  {
    Entry(line[..64], line[66..])
  }

  /** The lines a scanner delivers: split at newlines, a carriage return before
      the newline dropped, no empty line after the last newline. */
  function Lines(content: string): seq<string>
  {
    if content == "" then [] else ScanFrom(content, "")
  }

  function ScanFrom(content: string, current: string): seq<string>
    decreases |content|
  {
    if content == "" then (if current == "" then [] else [DropCR(current)])
    else if content[0] == '\n' then [DropCR(current)] + ScanFrom(content[1..], "")
    else ScanFrom(content[1..], current + [content[0]])
  }

  function DropCR(line: string): string
  {
    if line != "" && line[|line| - 1] == '\r' then line[..|line| - 1] else line
  }

  /** Each line followed by a newline. */
  function Terminated(lines: seq<string>): string
  {
    if lines == [] then "" else lines[0] + "\n" + Terminated(lines[1..])
  }

  lemma {:induction false} ScanLine(line: string, rest: string, current: string)
    requires '\n' !in line
    ensures ScanFrom(line + "\n" + rest, current) == [DropCR(current + line)] + ScanFrom(rest, "")
    decreases line
  {
    var s := line + "\n" + rest;
    if line == "" {
      assert s[1..] == rest && current + line == current;
    } else {
      assert '\n' !in line[1..];
      ScanLine(line[1..], rest, current + [line[0]]);
      assert s[1..] == line[1..] + "\n" + rest;
      assert (current + [line[0]]) + line[1..] == current + line;
    }
  }

  lemma {:induction false} ScanTerminated(lines: seq<string>, last: string)
    requires '\n' !in last && forall i | 0 <= i < |lines| :: '\n' !in lines[i]
    ensures var r := ScanFrom(Terminated(lines) + last, "");
            && |r| == |lines| + (if last == "" then 0 else 1)
            && (forall i | 0 <= i < |lines| :: r[i] == DropCR(lines[i]))
            && (last != "" ==> r[|lines|] == DropCR(last))
  {
    if lines == [] {
      ScanLast(last, "");
      assert "" + last == last;
    } else {
      var rest := Terminated(lines[1..]) + last;
      assert Terminated(lines) + last == lines[0] + "\n" + rest;
      ScanLine(lines[0], rest, "");
      assert "" + lines[0] == lines[0];
      ScanTerminated(lines[1..], last);
    }
  }

  lemma {:induction false} ScanLast(last: string, current: string)
    requires '\n' !in last
    ensures ScanFrom(last, current) == if current + last == "" then [] else [DropCR(current + last)]
    decreases last
  {
    if last == "" {
      assert current + last == current;
    } else {
      ScanLast(last[1..], current + [last[0]]);
      assert (current + [last[0]]) + last[1..] == current + last;
    }
  }

  /** The lines of any content: those that a newline ends and a last one that
      none does, unless that is empty, each without one final carriage return. */
  lemma LinesExactly(lines: seq<string>, last: string)
    requires '\n' !in last && forall i | 0 <= i < |lines| :: '\n' !in lines[i]
    ensures var r := Lines(Terminated(lines) + last);
            && |r| == |lines| + (if last == "" then 0 else 1)
            && (forall i | 0 <= i < |r| ::
                  var line := if i < |lines| then lines[i] else last;
                  if line != "" && line[|line| - 1] == '\r' then r[i] + "\r" == line else r[i] == line)
  {
    ScanTerminated(lines, last);
    if lines == [] {
      assert Terminated(lines) + last == last;
    } else {
      assert Terminated(lines) != "";
    }
  }

  /** A good line with its parts told apart. */
  lemma GoodLineExactly(line: string)
    ensures GoodLine(line) <==>
              && |line| > 66 && line[64..66] == "  "
              && (forall i | 0 <= i < 64 :: line[i] in "0123456789abcdef")
              && (forall i | 66 <= i < |line| :: line[i] !in [' ', '\t', '\r', '\n'])
              && line[66] != '*' && SafeSlashPath(line[66..], false)
  {
    if |line| > 66 {
      assert line[64..66] == [line[64], line[65]];
      assert forall i | 0 <= i < 64 :: line[..64][i] == line[i];
      assert forall i | 66 <= i < |line| :: line[66..][i - 66] == line[i];
    }
  }

  /** One more line adds its hash and path when it is good. */
  lemma EntriesLast(lines: seq<string>, line: string)
    ensures Entries([]) == []
    ensures Entries(lines + [line]) ==
              Entries(lines) + if GoodLine(line) && !Blank(line) then [Entry(line[..64], line[66..])] else []
  {
    assert (lines + [line])[..|lines|] == lines;
  }

  /** The entries of well-formed lines, in order; blank lines carry none. */
  function Entries(lines: seq<string>): seq<Entry>
  {
    if lines == [] then []
    else
      var k := |lines| - 1;
      Entries(lines[..k]) + if Blank(lines[k]) || !GoodLine(lines[k]) then [] else [EntryOf(lines[k])]
  }

  ghost predicate DistinctPaths(entries: seq<Entry>)
  {
    forall i, j | 0 <= i < j < |entries| :: entries[i].path != entries[j].path
  }

  ghost predicate AllGood(lines: seq<string>)
  {
    forall i | 0 <= i < |lines| :: Blank(lines[i]) || GoodLine(lines[i])
  }

  /** Silent exactly when every line is blank or well formed and no path comes
      twice; the entries are then those of the file. */
  method ParseSHA256SUMS(lines: seq<string>, path: string) returns (entries: seq<Entry>, findings: seq<Finding>)
    ensures findings == [] <==> AllGood(lines) && DistinctPaths(Entries(lines))
    ensures findings == [] ==> entries == Entries(lines)
  {
    entries, findings := [], [];
    var seen: map<string, bool> := map[];
    for i := 0 to |lines|
      invariant findings == [] ==> entries == Entries(lines[..i]) && AllGood(lines[..i]) && DistinctPaths(entries)
      invariant seen.Keys == PathsOf(entries)
      invariant findings != [] ==> !AllGood(lines[..i]) || !DistinctPaths(Entries(lines[..i]))
    {
      var line := lines[i];
      NextLine(lines, i);
      if Blank(line) {
        continue;
      }
      if |line| >= 66 && line[64] == ' ' && line[65] == '*' {
        findings := findings + [Finding(path, BadLine)];
        continue;
      }
      if |line| < 67 || line[64..66] != "  " {
        findings := findings + [Finding(path, BadLine)];
        continue;
      }
      assert line[64] == line[64..66][0] && line[65] == line[64..66][1];
      var hash, rel := line[..64], line[66..];
      if !LowerHex(hash) {
        findings := findings + [Finding(path, BadHash)];
      }
      if !NoWhitespace(rel) || rel[0] == '*' || !SafeSlashPath(rel, false) {
        findings := findings + [Finding(path, BadLine)];
        continue;
      }
      PathsSnoc(entries, Entry(hash, rel));
      if rel in seen {
        findings := findings + [Finding(path, DuplicatePath)];
      }
      seen := seen[rel := true];
      entries := entries + [Entry(hash, rel)];
    }
    assert lines[..|lines|] == lines;
  }

  ghost function PathsOf(entries: seq<Entry>): set<string>
  {
    set k | 0 <= k < |entries| :: entries[k].path
  }

  lemma PathsSnoc(entries: seq<Entry>, e: Entry)
    ensures PathsOf(entries + [e]) == PathsOf(entries) + {e.path}
    ensures DistinctPaths(entries + [e]) <==> DistinctPaths(entries) && e.path !in PathsOf(entries)
  {
    var longer := entries + [e];
    assert longer[|entries|] == e;
    forall k | 0 <= k < |entries|
      ensures longer[k] == entries[k]
    {
    }
    forall p | p in PathsOf(entries) + {e.path}
      ensures p in PathsOf(longer)
    {
      if p != e.path {
        var k :| 0 <= k < |entries| && entries[k].path == p;
        assert longer[k].path == p;
      }
    }
  }

  lemma NextLine(lines: seq<string>, i: nat)
    requires i < |lines|
    ensures Entries(lines[..i + 1])
         == Entries(lines[..i]) + if Blank(lines[i]) || !GoodLine(lines[i]) then [] else [EntryOf(lines[i])]
    ensures AllGood(lines[..i + 1]) <==> AllGood(lines[..i]) && (Blank(lines[i]) || GoodLine(lines[i]))
    ensures !DistinctPaths(Entries(lines[..i])) ==> !DistinctPaths(Entries(lines[..i + 1]))
  {
    assert lines[..i + 1][..i] == lines[..i] && lines[..i + 1][i] == lines[i];
    var (a, b) := (Entries(lines[..i]), Entries(lines[..i + 1]));
    assert a <= b;
  }

  // ----- the walk -----

  predicate Ignored(rel: seq<string>)
    requires rel != []
  {
    rel == ["README.md"] || rel == ["SHA256SUMS"] || rel == ["SHA256SUMS.sig"] || rel[|rel| - 1] == ".DS_Store"
  }

  /** Below dir, which itself has the relative path `prefix`, there are only
      directories, regular files and ignored entries. */
  ghost predicate Tidy(dir: Node, prefix: seq<string>)
  {
    forall p | p != [] && Direct(dir, p).Some? && !Ignored(prefix + p) ::
      Direct(dir, p).value.Directory? || Direct(dir, p).value.Regular?
  }

  /** f, a path that extends `prefix`, is a regular file below dir and counts as
      raw evidence. */
  ghost predicate IsRawFile(dir: Node, prefix: seq<string>, f: seq<string>)
  {
    && |prefix| < |f| && f[..|prefix|] == prefix && !Ignored(f)
    && Direct(dir, f[|prefix|..]).Some? && Direct(dir, f[|prefix|..]).value.Regular?
  }

  ghost predicate ChildTidy(node: Node, rel: seq<string>)
    requires rel != []
  {
    (Ignored(rel) || node.Directory? || node.Regular?) && (node.Directory? ==> Tidy(node, rel))
  }

  lemma TidyByChild(dir: Node, prefix: seq<string>)
    requires dir.Directory?
    ensures Tidy(dir, prefix) <==> forall name | name in dir.entries :: ChildTidy(dir.entries[name], prefix + [name])
  {
    if Tidy(dir, prefix) {
      forall name | name in dir.entries
        ensures ChildTidy(dir.entries[name], prefix + [name])
      {
        TidyChild(dir, prefix, name);
      }
    }
    if forall name | name in dir.entries :: ChildTidy(dir.entries[name], prefix + [name]) {
      forall p | p != [] && Direct(dir, p).Some? && !Ignored(prefix + p)
        ensures Direct(dir, p).value.Directory? || Direct(dir, p).value.Regular?
      {
        assert prefix + p == (prefix + [p[0]]) + p[1..];
        assert ChildTidy(dir.entries[p[0]], prefix + [p[0]]);
        if p[1..] == [] {
          assert p == [p[0]];
        }
      }
    }
  }

  lemma TidyChild(dir: Node, prefix: seq<string>, name: string)
    requires dir.Directory? && name in dir.entries && Tidy(dir, prefix)
    ensures ChildTidy(dir.entries[name], prefix + [name])
  {
    var node, rel := dir.entries[name], prefix + [name];
    assert Direct(dir, [name]) == Some(node) by { assert [name][1..] == []; }
    forall p | p != [] && Direct(node, p).Some? && !Ignored(rel + p)
      ensures Direct(node, p).value.Directory? || Direct(node, p).value.Regular?
    {
      assert ([name] + p)[1..] == p && prefix + ([name] + p) == rel + p;
      assert Direct(dir, [name] + p) == Direct(node, p);
    }
  }

  lemma RawFileByChild(dir: Node, prefix: seq<string>, f: seq<string>)
    requires dir.Directory? && |prefix| < |f|
    ensures var (name, rel) := (f[|prefix|], f[..|prefix| + 1]);
            IsRawFile(dir, prefix, f) <==>
              && f[..|prefix|] == prefix && name in dir.entries
              && ((dir.entries[name].Regular? && f == rel && !Ignored(f)) || IsRawFile(dir.entries[name], rel, f))
  {
    var k := |prefix|;
    var name, tail := f[k], f[k + 1..];
    assert f[k..][1..] == tail && f[k..][0] == name;
    assert Direct(dir, f[k..]) == if name in dir.entries then Direct(dir.entries[name], tail) else None;
    if |f| == k + 1 {
      assert f[..k + 1] == f && tail == [];
    } else {
      assert |f[..k + 1]| < |f|;
    }
  }

  /** What one directory entry contributes. */
  method Visit(node: Node, rel: seq<string>, bundle: string) returns (files: set<seq<string>>, findings: seq<Finding>)
    requires rel != []
    ensures findings == [] <==> ChildTidy(node, rel)
    ensures forall f :: f in files <==> (node.Regular? && f == rel && !Ignored(f)) || IsRawFile(node, rel, f)
    decreases node, 1
  {
    files, findings := {}, [];
    if node.Directory? {
      files, findings := BundleRawFiles(node, rel, bundle);
    } else {
      forall f | |rel| < |f|
        ensures !IsRawFile(node, rel, f)
      {
        assert f[|rel|..] != [];
      }
    }
    if !Ignored(rel) {
      if node.Link? || node.Special? {
        findings := findings + [Finding(bundle + "/" + Join(rel), if node.Link? then SymlinkEntry else NotRegular)];
      } else if node.Regular? {
        files := {rel};
      }
    }
  }

  /** Visits everything reachable through directories below dir: collects the
      regular files, reports links and special files, and descends even into
      directories whose own name is ignored. */
  method BundleRawFiles(dir: Node, prefix: seq<string>, bundle: string)
    returns (files: set<seq<string>>, findings: seq<Finding>)
    requires dir.Directory?
    ensures findings == [] <==> Tidy(dir, prefix)
    ensures forall f :: f in files <==> IsRawFile(dir, prefix, f)
    decreases dir, 0
  {
    files, findings := {}, [];
    var names := dir.entries.Keys;
    while names != {}
      invariant names <= dir.entries.Keys
      invariant findings == [] <==> forall name | name in dir.entries && name !in names :: ChildTidy(dir.entries[name], prefix + [name])
      invariant forall f :: f in files <==> IsRawFile(dir, prefix, f) && f[|prefix|] !in names
      decreases names
    {
      var name :| name in names;
      var below, sub := Visit(dir.entries[name], prefix + [name], bundle);
      ghost var left := names - {name};
      forall f
        ensures f in files + below <==> IsRawFile(dir, prefix, f) && f[|prefix|] !in left
      {
        if |prefix| < |f| {
          RawFileByChild(dir, prefix, f);
          assert f[..|prefix| + 1] == f[..|prefix|] + [f[|prefix|]];
        }
      }
      names := names - {name};
      files, findings := files + below, findings + sub;
    }
    TidyByChild(dir, prefix);
  }

  // ----- the check -----

  ghost predicate RegularAt(dir: Node, name: string)
  {
    dir.Directory? && name in dir.entries && dir.entries[name].Regular?
  }

  /** The entry names a regular file of this hash, reached without links. */
  ghost predicate EntryHolds(dir: Node, sha: string -> string, e: Entry)
  {
    var d := Direct(dir, Split(e.path));
    d.Some? && d.value.Regular? && sha(d.value.content) == e.hash
  }

  ghost function BundleDir(root: Node, bundle: string): Option<Node>
  {
    if SafeSlashPath(bundle, true) then Direct(root, Split(TrimSlash(bundle))) else None
  }

  ghost function SumEntries(dir: Node): seq<Entry>
    requires RegularAt(dir, "SHA256SUMS")
  {
    Entries(Lines(dir.entries["SHA256SUMS"].content))
  }

  ghost predicate Covered(root: Node, bundle: string, sha: string -> string)
  {
    && BundleDir(root, bundle).Some?
    && var dir := BundleDir(root, bundle).value;
    && RegularAt(dir, "README.md") && RegularAt(dir, "SHA256SUMS")
    && ("SHA256SUMS.sig" in dir.entries ==> RegularAt(dir, "SHA256SUMS.sig"))
    && SumsCover(dir, sha)
  }

  /** SHA256SUMS is well formed, true, and complete for what lies below dir. */
  ghost predicate SumsCover(dir: Node, sha: string -> string)
    requires RegularAt(dir, "SHA256SUMS")
  {
    && AllGood(Lines(dir.entries["SHA256SUMS"].content))
    && var entries := SumEntries(dir);
    && entries != [] && DistinctPaths(entries)
    && (forall i | 0 <= i < |entries| :: EntryHolds(dir, sha, entries[i]))
    && Tidy(dir, [])
    && (forall f | IsRawFile(dir, [], f) :: Join(f) in PathsOf(entries))
  }

  method ValidateControlFile(root: Node, base: seq<string>, bundle: string, name: string, optional: bool)
    returns (findings: seq<Finding>, present: bool)
    requires Direct(root, base).Some? && Direct(root, base).value.Directory?
    ensures var dir := Direct(root, base).value;
            && present == RegularAt(dir, name)
            && (findings == [] <==> present || (optional && name !in dir.entries))
  {
    ghost var dir := Direct(root, base).value;
    LstatAfterDirect(root, base, [name]);
    assert [name][1..] == [];
    var stat := Lstat(root, base + [name]);
    if stat.Missing? {
      return if optional then [] else [Finding(bundle, MissingEntry)], false;
    }
    if !stat.Found? {
      return [Finding(bundle + "/" + name, LookupFailed)], false;
    }
    if stat.node.Link? {
      return [Finding(bundle + "/" + name, SymlinkEntry)], false;
    }
    if !stat.node.Regular? {
      return [Finding(bundle + "/" + name, NotRegular)], false;
    }
    return [], true;
  }

  method VerifySHA256Entry(root: Node, base: seq<string>, bundle: string, sha: string -> string, e: Entry)
    returns (findings: seq<Finding>)
    requires Direct(root, base).Some? && Direct(root, base).value.Directory?
    ensures findings == [] <==> EntryHolds(Direct(root, base).value, sha, e)
  {
    var path := bundle + "/" + e.path;
    var l := LstatChecksumEntry(root, base, e.path);
    if l.Refused? {
      return [Finding(path, l.why)];
    }
    if !l.node.Regular? {
      return [Finding(path, NotRegular)];
    }
    if sha(l.node.content) != e.hash {
      return [Finding(path, HashMismatch)];
    }
    return [];
  }

  /** Silent exactly on covered bundles. */
  method CheckBundle(root: Node, bundle: string, sha: string -> string) returns (findings: seq<Finding>)
    requires root.Directory?
    ensures findings == [] <==> Covered(root, bundle, sha)
  {
    var at := LstatRepoRelative(root, bundle);
    if !at.Reached? {
      return [Finding(bundle, if at.Refused? then at.why else MissingEntry)];
    }
    if at.node.Link? {
      return [Finding(bundle, SymlinkEntry)];
    }
    if !at.node.Directory? {
      return [Finding(bundle, NotDirectory)];
    }
    var base, dir := Split(TrimSlash(bundle)), at.node;
    var readme, _ := ValidateControlFile(root, base, bundle, "README.md", false);
    var sig, _ := ValidateControlFile(root, base, bundle, "SHA256SUMS.sig", true);
    var sums, ok := ValidateControlFile(root, base, bundle, "SHA256SUMS", false);
    findings := readme + sig + sums;
    if !ok {
      return findings;
    }
    var entries, parsed := ParseSHA256SUMS(Lines(dir.entries["SHA256SUMS"].content), bundle + "/SHA256SUMS");
    var verified := VerifyAll(root, base, bundle, sha, entries);
    var uncovered := CheckRawFiles(dir, bundle, entries);
    findings := findings + parsed + (if entries == [] then [Finding(bundle + "/SHA256SUMS", NoEntries)] else []) + verified + uncovered;
  }

  method VerifyAll(root: Node, base: seq<string>, bundle: string, sha: string -> string, entries: seq<Entry>)
    returns (findings: seq<Finding>)
    requires Direct(root, base).Some? && Direct(root, base).value.Directory?
    ensures findings == [] <==> forall i | 0 <= i < |entries| :: EntryHolds(Direct(root, base).value, sha, entries[i])
  {
    findings := [];
    for k := 0 to |entries|
      invariant findings == [] <==> forall i | 0 <= i < k :: EntryHolds(Direct(root, base).value, sha, entries[i])
    {
      var f := VerifySHA256Entry(root, base, bundle, sha, entries[k]);
      findings := findings + f;
    }
  }

  method CheckRawFiles(dir: Node, bundle: string, entries: seq<Entry>) returns (findings: seq<Finding>)
    requires dir.Directory?
    ensures findings == [] <==> Tidy(dir, []) && forall f | IsRawFile(dir, [], f) :: Join(f) in PathsOf(entries)
  {
    var covered: map<string, bool> := map[];
    for k := 0 to |entries|
      invariant covered.Keys == PathsOf(entries[..k])
    {
      assert entries[..k + 1] == entries[..k] + [entries[k]];
      PathsSnoc(entries[..k], entries[k]);
      covered := covered[entries[k].path := true];
    }
    assert entries[..|entries|] == entries;
    var files, walk := BundleRawFiles(dir, [], bundle);
    findings := walk;
    var rest := files;
    while rest != {}
      invariant rest <= files
      invariant findings == [] <==> walk == [] && forall f | f in files && f !in rest :: Join(f) in PathsOf(entries)
      decreases rest
    {
      var f :| f in rest;
      if Join(f) !in covered {
        findings := findings + [Finding(bundle + "/" + Join(f), Uncovered)];
      }
      rest := rest - {f};
    }
  }

  // ----- what silence means -----

  /** File names are not empty and contain no slash. */
  ghost predicate ProperNames(n: Node)
  {
    forall p | Direct(n, p).Some? :: forall i | 0 <= i < |p| :: p[i] != "" && '/' !in p[i]
  }

  /** e is the only entry for its path. */
  ghost predicate ListedOnce(entries: seq<Entry>, e: Entry)
  {
    exists i :: 0 <= i < |entries| && entries[i] == e
                && forall j | 0 <= j < |entries| && entries[j].path == e.path :: j == i
  }

  /** What a silent check means, and all that it means: the bundle is reached
      without any link; its control files are regular; SHA256SUMS has entries,
      only good lines and no path twice; every listed path leads, without any
      link, to a regular file of the listed hash; and whatever lies below the
      bundle, directories aside, is a regular file listed exactly once with its
      true hash, save the three control files and entries named .DS_Store. */
  lemma SilenceMeansCovered(root: Node, bundle: string, sha: string -> string)
    requires ProperNames(root)
    ensures Covered(root, bundle, sha) <==>
              && SafeSlashPath(bundle, true)
              && Direct(root, Split(TrimSlash(bundle))).Some?
              && var dir := Direct(root, Split(TrimSlash(bundle))).value;
              && dir.Directory?
              && "README.md" in dir.entries && dir.entries["README.md"].Regular?
              && "SHA256SUMS" in dir.entries && dir.entries["SHA256SUMS"].Regular?
              && ("SHA256SUMS.sig" in dir.entries ==> dir.entries["SHA256SUMS.sig"].Regular?)
              && var lines := Lines(dir.entries["SHA256SUMS"].content);
              && var entries := Entries(lines);
              && (forall i | 0 <= i < |lines| :: Blank(lines[i]) || GoodLine(lines[i]))
              && entries != []
              && (forall i, j | 0 <= i < j < |entries| :: entries[i].path != entries[j].path)
              && (forall i | 0 <= i < |entries| ::
                    && Direct(dir, Split(entries[i].path)).Some?
                    && Direct(dir, Split(entries[i].path)).value.Regular?
                    && sha(Direct(dir, Split(entries[i].path)).value.content) == entries[i].hash)
              && (forall f | f != [] && Direct(dir, f).Some? && !Direct(dir, f).value.Directory?
                      && f != ["README.md"] && f != ["SHA256SUMS"] && f != ["SHA256SUMS.sig"] && f[|f| - 1] != ".DS_Store" ::
                    && Direct(dir, f).value.Regular?
                    && ListedOnce(entries, Entry(sha(Direct(dir, f).value.content), Join(f))))
  {
    if BundleDir(root, bundle).Some? && RegularAt(BundleDir(root, bundle).value, "SHA256SUMS") {
      SumsCoverExactly(root, Split(TrimSlash(bundle)), BundleDir(root, bundle).value, sha);
    }
  }

  lemma SumsCoverExactly(root: Node, base: seq<string>, dir: Node, sha: string -> string)
    requires ProperNames(root) && Direct(root, base) == Some(dir) && RegularAt(dir, "SHA256SUMS")
    ensures SumsCover(dir, sha) <==>
              && var lines := Lines(dir.entries["SHA256SUMS"].content);
              && var entries := Entries(lines);
              && (forall i | 0 <= i < |lines| :: Blank(lines[i]) || GoodLine(lines[i]))
              && entries != []
              && (forall i, j | 0 <= i < j < |entries| :: entries[i].path != entries[j].path)
              && (forall i | 0 <= i < |entries| ::
                    && Direct(dir, Split(entries[i].path)).Some?
                    && Direct(dir, Split(entries[i].path)).value.Regular?
                    && sha(Direct(dir, Split(entries[i].path)).value.content) == entries[i].hash)
              && (forall f | f != [] && Direct(dir, f).Some? && !Direct(dir, f).value.Directory?
                      && f != ["README.md"] && f != ["SHA256SUMS"] && f != ["SHA256SUMS.sig"] && f[|f| - 1] != ".DS_Store" ::
                    && Direct(dir, f).value.Regular?
                    && ListedOnce(entries, Entry(sha(Direct(dir, f).value.content), Join(f))))
  {
    var entries := SumEntries(dir);
    AllHold(dir, sha, entries);
    if DistinctPaths(entries) && forall i | 0 <= i < |entries| :: EntryHolds(dir, sha, entries[i]) {
      FilesListedExactly(root, base, dir, sha, entries);
    }
  }

  lemma AllHold(dir: Node, sha: string -> string, entries: seq<Entry>)
    ensures (forall i | 0 <= i < |entries| :: EntryHolds(dir, sha, entries[i])) <==>
              forall i | 0 <= i < |entries| ::
                && Direct(dir, Split(entries[i].path)).Some?
                && Direct(dir, Split(entries[i].path)).value.Regular?
                && sha(Direct(dir, Split(entries[i].path)).value.content) == entries[i].hash
  {
  }

  /** What the walk exempts: the three control files at the top and, anywhere,
      entries named .DS_Store. */
  lemma ExemptExactly(dir: Node)
    ensures Tidy(dir, []) <==>
              forall f | f != [] && Direct(dir, f).Some? && f != ["README.md"] && f != ["SHA256SUMS"]
                  && f != ["SHA256SUMS.sig"] && f[|f| - 1] != ".DS_Store" ::
                Direct(dir, f).value.Directory? || Direct(dir, f).value.Regular?
    ensures forall f :: IsRawFile(dir, [], f) <==>
              && f != [] && Direct(dir, f).Some? && Direct(dir, f).value.Regular?
              && f != ["README.md"] && f != ["SHA256SUMS"] && f != ["SHA256SUMS.sig"] && f[|f| - 1] != ".DS_Store"
  {
    assert forall f: seq<string> :: [] + f == f;
    assert forall f: seq<string> {:trigger IsRawFile(dir, [], f)} :: f[0..] == f && f[..0] == [];
  }

  /** Given entries that hold and are distinct, tidy and covered is regular and
      listed once. */
  lemma FilesListed(root: Node, base: seq<string>, dir: Node, sha: string -> string, entries: seq<Entry>)
    requires ProperNames(root) && Direct(root, base) == Some(dir)
    requires DistinctPaths(entries) && forall i | 0 <= i < |entries| :: EntryHolds(dir, sha, entries[i])
    requires Tidy(dir, []) && forall f | IsRawFile(dir, [], f) :: Join(f) in PathsOf(entries)
    ensures forall f | f != [] && Direct(dir, f).Some? && !Direct(dir, f).value.Directory?
                  && f != ["README.md"] && f != ["SHA256SUMS"] && f != ["SHA256SUMS.sig"] && f[|f| - 1] != ".DS_Store" ::
                && Direct(dir, f).value.Regular?
                && ListedOnce(entries, Entry(sha(Direct(dir, f).value.content), Join(f)))
  {
    ExemptExactly(dir);
    forall f | f != [] && Direct(dir, f).Some? && !Direct(dir, f).value.Directory?
        && f != ["README.md"] && f != ["SHA256SUMS"] && f != ["SHA256SUMS.sig"] && f[|f| - 1] != ".DS_Store"
      ensures Direct(dir, f).value.Regular? && ListedOnce(entries, Entry(sha(Direct(dir, f).value.content), Join(f)))
    {
      NamesBelow(root, base, f);
      assert IsRawFile(dir, [], f);
      CoveringEntry(dir, sha, entries, f);
    }
  }

  lemma FilesListedExactly(root: Node, base: seq<string>, dir: Node, sha: string -> string, entries: seq<Entry>)
    requires ProperNames(root) && Direct(root, base) == Some(dir)
    requires DistinctPaths(entries) && forall i | 0 <= i < |entries| :: EntryHolds(dir, sha, entries[i])
    ensures Tidy(dir, []) && (forall f | IsRawFile(dir, [], f) :: Join(f) in PathsOf(entries)) <==>
              forall f | f != [] && Direct(dir, f).Some? && !Direct(dir, f).value.Directory?
                  && f != ["README.md"] && f != ["SHA256SUMS"] && f != ["SHA256SUMS.sig"] && f[|f| - 1] != ".DS_Store" ::
                && Direct(dir, f).value.Regular?
                && ListedOnce(entries, Entry(sha(Direct(dir, f).value.content), Join(f)))
  {
    if Tidy(dir, []) && forall f | IsRawFile(dir, [], f) :: Join(f) in PathsOf(entries) {
      FilesListed(root, base, dir, sha, entries);
    } else if forall f | f != [] && Direct(dir, f).Some? && !Direct(dir, f).value.Directory?
                && f != ["README.md"] && f != ["SHA256SUMS"] && f != ["SHA256SUMS.sig"] && f[|f| - 1] != ".DS_Store" ::
              && Direct(dir, f).value.Regular?
              && ListedOnce(entries, Entry(sha(Direct(dir, f).value.content), Join(f))) {
      ListedFiles(dir, sha, entries);
    }
  }

  lemma ListedFiles(dir: Node, sha: string -> string, entries: seq<Entry>)
    requires forall f | f != [] && Direct(dir, f).Some? && !Direct(dir, f).value.Directory?
                  && f != ["README.md"] && f != ["SHA256SUMS"] && f != ["SHA256SUMS.sig"] && f[|f| - 1] != ".DS_Store" ::
                && Direct(dir, f).value.Regular?
                && ListedOnce(entries, Entry(sha(Direct(dir, f).value.content), Join(f)))
    ensures Tidy(dir, []) && forall f | IsRawFile(dir, [], f) :: Join(f) in PathsOf(entries)
  {
    ExemptExactly(dir);
    forall f | IsRawFile(dir, [], f)
      ensures Join(f) in PathsOf(entries)
    {
      assert ListedOnce(entries, Entry(sha(Direct(dir, f).value.content), Join(f)));
    }
  }

  lemma NamesBelow(root: Node, base: seq<string>, f: seq<string>)
    requires ProperNames(root) && f != []
    requires Direct(root, base).Some? && Direct(Direct(root, base).value, f).Some?
    ensures Split(Join(f)) == f
  {
    DirectAppend(root, base, f);
    forall k | 0 <= k < |f|
      ensures '/' !in f[k]
    {
      assert f[k] == (base + f)[|base| + k];
    }
    SplitJoin(f);
  }

  lemma CoveringEntry(dir: Node, sha: string -> string, entries: seq<Entry>, f: seq<string>)
    requires f != [] && Direct(dir, f).Some? && Direct(dir, f).value.Regular? && Split(Join(f)) == f
    requires Join(f) in PathsOf(entries) && DistinctPaths(entries)
    requires forall i | 0 <= i < |entries| :: EntryHolds(dir, sha, entries[i])
    ensures ListedOnce(entries, Entry(sha(Direct(dir, f).value.content), Join(f)))
  {
    var i :| 0 <= i < |entries| && entries[i].path == Join(f);
    assert EntryHolds(dir, sha, entries[i]);
  }
}
