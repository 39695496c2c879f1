// A file tree with symbolic links, and slash-separated paths in it. Source:
// tools/evidencebaseline/main.go (safeSlashPath, lstatRepoRelative,
// lstatChecksumEntry) and the lstat they call.
module EvidenceTree {
  import opened Errors

  // ----- the tree -----

  /** A link leads to some node or nowhere; Special is a device, socket, pipe. */
  datatype Node =
    | Regular(content: string)
    | Directory(entries: map<string, Node>)
    | Link(target: Option<Node>)
    | Special

  datatype Stat = Found(node: Node) | Missing | NotADirectory

  /** lstat: follows every link on the way but not the last component. */
  function Lstat(n: Node, path: seq<string>): Stat
    decreases |path|, n
  {
    if path == [] then Found(n)
    else
      match n
      case Directory(e) => if path[0] in e then Lstat(e[path[0]], path[1..]) else Missing
      case Link(Some(t)) => Lstat(t, path)
      case Link(None) => Missing
      case _ => NotADirectory
  }

  /** The node reached through directories only, never through a link. */
  function Direct(n: Node, path: seq<string>): Option<Node>
  {
    if path == [] then Some(n)
    else if n.Directory? && path[0] in n.entries then Direct(n.entries[path[0]], path[1..])
    else None
  }

  lemma {:induction false} DirectAppend(n: Node, p: seq<string>, q: seq<string>)
    ensures Direct(n, p + q) == if Direct(n, p).Some? then Direct(Direct(n, p).value, q) else None
  {
    if p == [] {
      assert p + q == q;
    } else {
      assert (p + q)[0] == p[0] && (p + q)[1..] == p[1..] + q;
      if n.Directory? && p[0] in n.entries {
        DirectAppend(n.entries[p[0]], p[1..], q);
      }
    }
  }

  /** One name further: into a directory that has it, and nowhere else. */
  lemma DirectLast(n: Node, path: seq<string>, name: string)
    ensures Direct(n, []) == Some(n)
    ensures Direct(n, path + [name]) ==
              match Direct(n, path)
              case Some(Directory(e)) => if name in e then Some(e[name]) else None
              case _ => None
  {
    DirectAppend(n, path, [name]);
  }

  lemma {:induction false} LstatAfterDirect(n: Node, p: seq<string>, q: seq<string>)
    requires Direct(n, p).Some?
    ensures Lstat(n, p + q) == Lstat(Direct(n, p).value, q)
  {
    if p == [] {
      assert p + q == q;
    } else {
      assert (p + q)[0] == p[0] && (p + q)[1..] == p[1..] + q;
      LstatAfterDirect(n.entries[p[0]], p[1..], q);
    }
  }

  // ----- paths -----

  function Split(s: string): (parts: seq<string>)
    ensures |parts| >= 1
  {
    if s == "" then [""]
    else
      var rest := Split(s[1..]);
      if s[0] == '/' then [""] + rest else [[s[0]] + rest[0]] + rest[1..]
  }

  function Join(parts: seq<string>): string
    requires parts != []
  {
    if |parts| == 1 then parts[0] else parts[0] + "/" + Join(parts[1..])
  }

  lemma {:induction false} SplitNoSlash(s: string)
    requires '/' !in s
    ensures Split(s) == [s]
  {
    if s != "" {
      assert '/' !in s[1..];
      SplitNoSlash(s[1..]);
      assert [s[0]] + s[1..] == s;
    }
  }

  lemma {:induction false} SplitHead(head: string, rest: string)
    requires '/' !in head
    ensures Split(head + "/" + rest) == [head] + Split(rest)
  {
    var s := head + "/" + rest;
    if head == "" {
      assert s[1..] == rest;
    } else {
      assert '/' !in head[1..];
      SplitHead(head[1..], rest);
      assert s[1..] == head[1..] + "/" + rest;
      assert [s[0]] + head[1..] == head;
    }
  }

  /** Joining loses nothing as long as no component contains a slash. */
  lemma {:induction false} SplitJoin(parts: seq<string>)
    requires parts != [] && forall i | 0 <= i < |parts| :: '/' !in parts[i]
    ensures Split(Join(parts)) == parts
  {
    if |parts| == 1 {
      SplitNoSlash(parts[0]);
    } else {
      SplitJoin(parts[1..]);
      SplitHead(parts[0], Join(parts[1..]));
    }
  }

  function TrimSlash(ref: string): string
  {
    if ref != "" && ref[|ref| - 1] == '/' then ref[..|ref| - 1] else ref
  }

  predicate SafeParts(parts: seq<string>)
  {
    forall i | 0 <= i < |parts| :: parts[i] != "" && parts[i] != "." && parts[i] != ".."
  }

  predicate SafeSlashPath(ref: string, allowTrailingSlash: bool)
  {
    && ref != "" && '\\' !in ref && '\0' !in ref && ':' !in ref && ref[0] != '/'
    && (ref[|ref| - 1] == '/' ==> allowTrailingSlash && TrimSlash(ref) != "")
    && SafeParts(Split(TrimSlash(ref)))
  }

  lemma {:induction false} JoinSplit(s: string)
    ensures Join(Split(s)) == s
    ensures forall i | 0 <= i < |Split(s)| :: '/' !in Split(s)[i]
  {
    if s != "" {
      JoinSplit(s[1..]);
      var rest := Split(s[1..]);
      if s[0] == '/' {
        assert ([""] + rest)[1..] == rest;
        assert s == "" + "/" + Join(rest);
      } else {
        var parts := [[s[0]] + rest[0]] + rest[1..];
        assert parts[1..] == rest[1..];
        assert Join(parts) == [s[0]] + Join(rest) by {
          if |rest| > 1 {
            assert ([s[0]] + rest[0]) + "/" + Join(rest[1..]) == [s[0]] + (rest[0] + "/" + Join(rest[1..]));
          }
        }
      }
    }
  }

  lemma {:induction false} InJoin(parts: seq<string>, c: char)
    requires parts != [] && c != '/'
    ensures c in Join(parts) <==> exists i :: 0 <= i < |parts| && c in parts[i]
  {
    if |parts| > 1 {
      InJoin(parts[1..], c);
      assert forall i | 1 <= i < |parts| :: parts[i] == parts[1..][i - 1];
    }
  }

  /** An ordinary file name in a portable path. */
  ghost predicate PlainName(s: string)
  {
    s !in ["", ".", ".."] && '/' !in s && '\\' !in s && '\0' !in s && ':' !in s
  }

  ghost predicate PlainNames(parts: seq<string>)
  {
    parts != [] && forall i | 0 <= i < |parts| :: PlainName(parts[i])
  }

  /** Which references are safe: plain names joined by slashes, and a trailing
      slash only where one is allowed. They are looked up name by name. */
  lemma SafeSlashPathExactly(ref: string, allowTrailingSlash: bool)
    ensures SafeSlashPath(ref, allowTrailingSlash) <==>
              exists parts :: PlainNames(parts) && (ref == Join(parts) || (allowTrailingSlash && ref == Join(parts) + "/"))
    ensures forall parts | PlainNames(parts) && (ref == Join(parts) || ref == Join(parts) + "/") :: Split(TrimSlash(ref)) == parts
  {
    if SafeSlashPath(ref, allowTrailingSlash) {
      SafeIsPlain(ref, allowTrailingSlash);
    }
    forall parts | PlainNames(parts) && (ref == Join(parts) || ref == Join(parts) + "/")
      ensures Split(TrimSlash(ref)) == parts
      ensures ref == Join(parts) || allowTrailingSlash ==> SafeSlashPath(ref, allowTrailingSlash)
    {
      PlainIsSafe(parts, ref, allowTrailingSlash);
    }
  }

  lemma SafeIsPlain(ref: string, allowTrailingSlash: bool)
    requires SafeSlashPath(ref, allowTrailingSlash)
    ensures var parts := Split(TrimSlash(ref));
            PlainNames(parts) && (ref == Join(parts) || (allowTrailingSlash && ref == Join(parts) + "/"))
  {
    var parts := Split(TrimSlash(ref));
    JoinSplit(TrimSlash(ref));
    InJoin(parts, '\\');
    InJoin(parts, '\0');
    InJoin(parts, ':');
    forall i | 0 <= i < |parts|
      ensures PlainName(parts[i])
    {
    }
  }

  lemma PlainIsSafe(parts: seq<string>, ref: string, allowTrailingSlash: bool)
    requires PlainNames(parts) && (ref == Join(parts) || ref == Join(parts) + "/")
    ensures Split(TrimSlash(ref)) == parts
    ensures ref == Join(parts) || allowTrailingSlash ==> SafeSlashPath(ref, allowTrailingSlash)
  {
    PlainJoin(parts);
    assert TrimSlash(ref) == Join(parts);
    forall i | 0 <= i < |parts|
      ensures parts[i] !in ["", ".", ".."]
    {
      assert PlainName(parts[i]);
    }
  }

  lemma PlainJoin(parts: seq<string>)
    requires PlainNames(parts)
    ensures Split(Join(parts)) == parts && Join(parts) != "" && Join(parts)[0] != '/' && Join(parts)[|Join(parts)| - 1] != '/'
    ensures '\\' !in Join(parts) && '\0' !in Join(parts) && ':' !in Join(parts)
  {
    SplitJoin(parts);
    JoinEnds(parts);
    InJoin(parts, '\\');
    InJoin(parts, '\0');
    InJoin(parts, ':');
  }

  lemma {:induction false} JoinEnds(parts: seq<string>)
    requires PlainNames(parts)
    ensures Join(parts) != "" && Join(parts)[0] != '/' && Join(parts)[|Join(parts)| - 1] != '/'
  {
    assert PlainName(parts[0]);
    if |parts| > 1 {
      JoinEnds(parts[1..]);
    }
  }

  // ----- the two component-by-component lookups -----

  datatype Problem =
    | UnsafePath | MissingParent | SymlinkedParent | ParentNotDirectory | MissingEntry | SymlinkEntry | NotRegular
    | NotDirectory | BadLine | BadHash | DuplicatePath | NoEntries | HashMismatch | Uncovered | LookupFailed

  datatype Lookup = Reached(node: Node) | Absent | Refused(why: Problem)

  /** Succeeds exactly on safe references whose every parent is a directory and
      no symlink; the last component itself may be a link. */
  method LstatRepoRelative(root: Node, ref: string) returns (r: Lookup)
    requires root.Directory?
    ensures r.Reached? <==> SafeSlashPath(ref, true) && Direct(root, Split(TrimSlash(ref))).Some?
    ensures r.Reached? ==> Some(r.node) == Direct(root, Split(TrimSlash(ref)))
  {
    if !SafeSlashPath(ref, true) {
      return Refused(UnsafePath);
    }
    var parts := Split(TrimSlash(ref));
    ghost var at := root;
    var i := 0;
    while true
      invariant i < |parts| && at.Directory? && Direct(root, parts[..i]) == Some(at)
      decreases |parts| - i
    {
      assert [] + parts[..i] == parts[..i];
      Descend(root, [], parts, i, at);
      assert [] + parts[..i + 1] == parts[..i + 1];
      var stat := Lstat(root, parts[..i + 1]);
      if !stat.Found? {
        NoFurther(root, parts, i + 1);
        if stat.Missing? && i < |parts| - 1 {
          return Refused(MissingParent);
        }
        return if stat.Missing? then Absent else Refused(LookupFailed);
      }
      if i == |parts| - 1 {
        assert parts[..i + 1] == parts;
        return Reached(stat.node);
      }
      if !stat.node.Directory? {
        NotThrough(root, parts, i + 1);
        return Refused(if stat.node.Link? then SymlinkedParent else ParentNotDirectory);
      }
      at := stat.node;
      i := i + 1;
    }
  }

  /** Succeeds exactly when the path leads, without any link, to something that
      is no link either. */
  method LstatChecksumEntry(root: Node, base: seq<string>, rel: string) returns (r: Lookup)
    requires Direct(root, base).Some? && Direct(root, base).value.Directory?
    ensures var d := Direct(Direct(root, base).value, Split(rel));
            && (r.Reached? <==> d.Some? && !d.value.Link?)
            && (r.Reached? ==> d == Some(r.node))
    ensures !r.Absent?
  {
    var parts := Split(rel);
    ghost var dir := Direct(root, base).value;
    ghost var at := dir;
    var i := 0;
    while true
      invariant i < |parts| && at.Directory? && Direct(dir, parts[..i]) == Some(at)
      decreases |parts| - i
    {
      DirectAppend(root, base, parts[..i]);
      DirectAppend(root, base, parts[..i + 1]);
      Descend(root, base, parts, i, at);
      var stat := Lstat(root, base + parts[..i + 1]);
      if !stat.Found? {
        NoFurther(dir, parts, i + 1);
        return Refused(if stat.Missing? then MissingEntry else LookupFailed);
      }
      if stat.node.Link? {
        if i == |parts| - 1 {
          assert parts[..i + 1] == parts;
        } else {
          NotThrough(dir, parts, i + 1);
        }
        return Refused(if i < |parts| - 1 then SymlinkedParent else SymlinkEntry);
      }
      if i == |parts| - 1 {
        assert parts[..i + 1] == parts;
        return Reached(stat.node);
      }
      if !stat.node.Directory? {
        NotThrough(dir, parts, i + 1);
        return Refused(ParentNotDirectory);
      }
      at := stat.node;
      i := i + 1;
    }
  }

  /** lstat of the next component looks into the directory reached so far. */
  lemma Descend(root: Node, base: seq<string>, parts: seq<string>, i: nat, at: Node)
    requires i < |parts| && at.Directory? && Direct(root, base + parts[..i]) == Some(at)
    ensures Lstat(root, base + parts[..i + 1])
         == if parts[i] in at.entries then Found(at.entries[parts[i]]) else Missing
    ensures Direct(root, base + parts[..i + 1])
         == if parts[i] in at.entries then Some(at.entries[parts[i]]) else None
  {
    assert base + parts[..i + 1] == (base + parts[..i]) + [parts[i]];
    LstatAfterDirect(root, base + parts[..i], [parts[i]]);
    DirectAppend(root, base + parts[..i], [parts[i]]);
  }

  lemma NoFurther(n: Node, parts: seq<string>, k: nat)
    requires k <= |parts| && Direct(n, parts[..k]).None?
    ensures Direct(n, parts).None?
  {
    DirectAppend(n, parts[..k], parts[k..]);
    assert parts[..k] + parts[k..] == parts;
  }

  lemma NotThrough(n: Node, parts: seq<string>, k: nat)
    requires k < |parts| && Direct(n, parts[..k]).Some? && !Direct(n, parts[..k]).value.Directory?
    ensures Direct(n, parts).None?
  {
    DirectAppend(n, parts[..k], parts[k..]);
    assert parts[..k] + parts[k..] == parts;
  }
}
