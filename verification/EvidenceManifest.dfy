// The summary-doc manifest: what is written is read back. Source:
// tools/evidencebaseline/main.go (writeSummaryDocsManifest,
// parseSummaryDocsManifest).
module EvidenceManifest {
  import opened EvidenceBundle
  import opened EvidenceTree

  const HEADER := "# Generated from docs/" + "evidence-baseline.md " + "by tools/" + "evidencebaseline " + "--write-summary-docs."

  function Written(refs: seq<string>): string
  {
    HEADER + "\n" + Terminated(refs)
  }

  predicate Skipped(line: string) { line == "" || line[0] == '#' }

  predicate Padded(line: string)
    requires line != ""
  {
    IsSpace(line[0]) || IsSpace(line[|line| - 1])
  }

  /** The references among the lines: not blank, no comment, no padding. */
  function Refs(lines: seq<string>): seq<string>
  {
    if lines == [] then []
    else
      var k := |lines| - 1;
      Refs(lines[..k]) + if Skipped(lines[k]) || Padded(lines[k]) then [] else [lines[k]]
  }

  method ParseManifest(lines: seq<string>, path: string) returns (refs: seq<string>, findings: seq<Finding>)
    ensures refs == Refs(lines)
    ensures findings == [] <==>
              forall i | 0 <= i < |lines| && lines[i] != "" && lines[i][0] != '#' ::
                !IsSpace(lines[i][0]) && !IsSpace(lines[i][|lines[i]| - 1])
  {
    refs, findings := [], [];
    for i := 0 to |lines|
      invariant refs == Refs(lines[..i])
      invariant findings == [] <==> forall j | 0 <= j < i && !Skipped(lines[j]) :: !Padded(lines[j])
    {
      assert lines[..i + 1][..i] == lines[..i];
      var ref := lines[i];
      if Skipped(ref) {
        continue;
      }
      if Padded(ref) {
        findings := findings + [Finding(path, BadLine)];
        continue;
      }
      refs := refs + [ref];
    }
    assert lines[..|lines|] == lines;
  }

  /** One more line adds itself unless it is empty, a comment or padded. */
  lemma RefsLast(lines: seq<string>, line: string)
    ensures Refs([]) == []
    ensures Refs(lines + [line]) ==
              Refs(lines) + if line == "" || line[0] == '#' || IsSpace(line[0]) || IsSpace(line[|line| - 1]) then [] else [line]
  {
    assert (lines + [line])[..|lines|] == lines;
  }

  // ----- round trip -----

  /** A reference survives: it is one line and parsing takes it as it is. */
  predicate Survives(ref: string)
  {
    '\n' !in ref && !Skipped(ref) && !Padded(ref)
  }

  lemma {:induction false} ScanRefs(refs: seq<string>)
    requires forall i | 0 <= i < |refs| :: Survives(refs[i])
    ensures ScanFrom(Terminated(refs), "") == refs
  {
    if refs != [] {
      ScanLine(refs[0], Terminated(refs[1..]), "");
      ScanRefs(refs[1..]);
      assert Survives(refs[0]);
      assert "" + refs[0] == refs[0] && DropCR(refs[0]) == refs[0];
      assert [refs[0]] + refs[1..] == refs;
    }
  }

  lemma {:induction false} RefsOfRefs(header: string, refs: seq<string>)
    requires Skipped(header) && forall i | 0 <= i < |refs| :: Survives(refs[i])
    ensures Refs([header] + refs) == refs
  {
    var lines := [header] + refs;
    var k := |lines| - 1;
    if refs == [] {
      assert lines[..k] == [];
    } else {
      assert lines[..k] == [header] + refs[..k - 1] && lines[k] == refs[k - 1];
      RefsOfRefs(header, refs[..k - 1]);
      assert Survives(refs[k - 1]);
      assert refs[..k - 1] + [refs[k - 1]] == refs;
    }
  }

  lemma HeaderIsOneComment()
    ensures '\n' !in HEADER && Skipped(HEADER) && DropCR(HEADER) == HEADER
  {
    assert '\n' !in "# Generated from docs/" && '\n' !in "evidence-baseline.md " && '\n' !in "by tools/";
    assert '\n' !in "evidencebaseline " && '\n' !in "--write-summary-docs.";
    assert HEADER[0] == "# Generated from docs/"[0];
  }

  lemma {:induction false} ScannedLinesUnbroken(content: string, current: string)
    requires '\n' !in current
    ensures forall i | 0 <= i < |ScanFrom(content, current)| :: '\n' !in ScanFrom(content, current)[i]
    decreases |content|
  {
    if content != "" {
      ScannedLinesUnbroken(content[1..], if content[0] == '\n' then "" else current + [content[0]]);
    }
  }

  lemma {:induction false} ParsedRefsSurvive(lines: seq<string>)
    requires forall i | 0 <= i < |lines| :: '\n' !in lines[i]
    ensures forall i | 0 <= i < |Refs(lines)| :: Survives(Refs(lines)[i])
  {
    if lines != [] {
      ParsedRefsSurvive(lines[..|lines| - 1]);
    }
  }

  /** Parsing the manifest just written gives back the references exactly when
      each of them is one line, no comment and without padding. */
  lemma ManifestRoundTrip(refs: seq<string>)
    ensures Refs(Lines(Written(refs))) == refs <==>
              forall i | 0 <= i < |refs| ::
                && '\n' !in refs[i] && refs[i] != "" && refs[i][0] != '#'
                && !IsSpace(refs[i][0]) && !IsSpace(refs[i][|refs[i]| - 1])
  {
    assert forall i | 0 <= i < |refs| ::
        Survives(refs[i]) <==> '\n' !in refs[i] && refs[i] != "" && refs[i][0] != '#'
                               && !IsSpace(refs[i][0]) && !IsSpace(refs[i][|refs[i]| - 1]);
    HeaderIsOneComment();
    if forall i | 0 <= i < |refs| :: Survives(refs[i]) {
      ScanLine(HEADER, Terminated(refs), "");
      assert "" + HEADER == HEADER;
      ScanRefs(refs);
      RefsOfRefs(HEADER, refs);
    } else {
      ScannedLinesUnbroken(Written(refs), "");
      ParsedRefsSurvive(Lines(Written(refs)));
    }
  }
}
