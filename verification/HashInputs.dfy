// The byte strings fed to SHA-512, HMAC and HKDF.
// Source: crypto.go, transcript.go, input.go (buildCI), session.go (Export).
module HashInputs {
  import opened ByteStrings
  import opened LengthValue

  const DSI := Ascii("CPaceRistretto255")
  const DSI_ISK := Ascii("CPaceRistretto255_ISK")
  const BLOCK_SIZE := 128

  function GeneratorString(dsi: Bytes, prs: Bytes, ci: Bytes, sid: Bytes, sInBytes: nat): Bytes
  {
    LvCat([dsi, prs, Zeros(ZpadLength(dsi, prs, sInBytes)), ci, sid])
  }

  function ZpadLength(dsi: Bytes, prs: Bytes, sInBytes: nat): nat
  {
    var raw := sInBytes - |LV(prs)| - |LV(dsi)| - 1;
    if raw > 0 then raw else 0
  }

  function ChannelIdentifier(initiatorID: Bytes, responderID: Bytes, context: Bytes): Bytes
  {
    LvCat([Ascii("CPace-Go-CI"), Ascii("draft-irtf-cfrg-cpace-21"), Ascii("CPACE-RISTR255-SHA512"),
           Ascii("initiator"), initiatorID, Ascii("responder"), responderID, Ascii("context"), context])
  }

  function TranscriptBytes(ya: Bytes, ada: Bytes, yb: Bytes, adb: Bytes): Bytes
  {
    LvCat([ya, ada]) + LvCat([yb, adb])
  }

  function IskMaterial(sid: Bytes, k: Bytes, transcript: Bytes): Bytes
  {
    LvCat([DSI_ISK, sid, k]) + transcript
  }

  function MacKeyInput(isk: Bytes, sid: Bytes): Bytes { Ascii("CPaceMac") + sid + isk }

  function MacMessage(y: Bytes, ad: Bytes): Bytes { LvCat([y, ad]) }

  function SidOutputInput(transcript: Bytes): Bytes { Ascii("CPaceSidOutput") + transcript }

  function ExportInfo(purpose: Bytes, context: Bytes): Bytes
  {
    LvCat([Ascii("CPaceExport"), purpose, context])
  }

  // ----- each string determines what it was built from -----

  lemma GeneratorStringInjective(dsi: Bytes, prs: Bytes, ci: Bytes, sid: Bytes, n: nat,
                                 dsi': Bytes, prs': Bytes, ci': Bytes, sid': Bytes, n': nat)
    requires GeneratorString(dsi, prs, ci, sid, n) == GeneratorString(dsi', prs', ci', sid', n')
    ensures dsi == dsi' && prs == prs' && ci == ci' && sid == sid'
  {
    var xs := [dsi, prs, Zeros(ZpadLength(dsi, prs, n)), ci, sid];
    var ys := [dsi', prs', Zeros(ZpadLength(dsi', prs', n')), ci', sid'];
    LvCatInjective(xs, ys);
    assert xs[0] == ys[0] && xs[1] == ys[1] && xs[3] == ys[3] && xs[4] == ys[4];
  }

  lemma ChannelIdentifierInjective(i: Bytes, r: Bytes, c: Bytes, i': Bytes, r': Bytes, c': Bytes)
    requires ChannelIdentifier(i, r, c) == ChannelIdentifier(i', r', c')
    ensures i == i' && r == r' && c == c'
  {
    var xs := [Ascii("CPace-Go-CI"), Ascii("draft-irtf-cfrg-cpace-21"), Ascii("CPACE-RISTR255-SHA512"),
               Ascii("initiator"), i, Ascii("responder"), r, Ascii("context"), c];
    var ys := [Ascii("CPace-Go-CI"), Ascii("draft-irtf-cfrg-cpace-21"), Ascii("CPACE-RISTR255-SHA512"),
               Ascii("initiator"), i', Ascii("responder"), r', Ascii("context"), c'];
    LvCatInjective(xs, ys);
    assert xs[4] == ys[4] && xs[6] == ys[6] && xs[8] == ys[8];
  }

  lemma ExportInfoInjective(purpose: Bytes, context: Bytes, purpose': Bytes, context': Bytes)
    requires ExportInfo(purpose, context) == ExportInfo(purpose', context')
    ensures purpose == purpose' && context == context'
  {
    var xs, ys := [Ascii("CPaceExport"), purpose, context], [Ascii("CPaceExport"), purpose', context'];
    LvCatInjective(xs, ys);
    assert xs[1] == ys[1] && xs[2] == ys[2];
  }

  lemma MacMessageInjective(y: Bytes, ad: Bytes, y': Bytes, ad': Bytes)
    requires MacMessage(y, ad) == MacMessage(y', ad')
    ensures y == y' && ad == ad'
  {
    LvCatInjective([y, ad], [y', ad']);
    assert [y, ad][0] == [y', ad'][0] && [y, ad][1] == [y', ad'][1];
  }

  /** The raw transcript behind the length-value prefix is still the encoding of
      one list, here of seven fields. */
  lemma IskMaterialIsSevenFields(sid: Bytes, k: Bytes, ya: Bytes, ada: Bytes, yb: Bytes, adb: Bytes)
    ensures IskMaterial(sid, k, TranscriptBytes(ya, ada, yb, adb))
         == LvCat([DSI_ISK, sid, k, ya, ada, yb, adb])
  {
    TranscriptIsFourFields(ya, ada, yb, adb);
    LvCatAppend([DSI_ISK, sid, k], [ya, ada, yb, adb]);
    assert [DSI_ISK, sid, k] + [ya, ada, yb, adb] == [DSI_ISK, sid, k, ya, ada, yb, adb];
  }

  lemma TranscriptIsFourFields(ya: Bytes, ada: Bytes, yb: Bytes, adb: Bytes)
    ensures TranscriptBytes(ya, ada, yb, adb) == LvCat([ya, ada, yb, adb])
  {
    LvCatAppend([ya, ada], [yb, adb]);
    assert [ya, ada] + [yb, adb] == [ya, ada, yb, adb];
  }

  /** The sid-output input is its 14-byte label and the encoding of the four
      transcript fields, and determines them. */
  lemma SidOutputDetermines(ya: Bytes, ada: Bytes, yb: Bytes, adb: Bytes,
                            ya': Bytes, ada': Bytes, yb': Bytes, adb': Bytes)
    ensures SidOutputInput(TranscriptBytes(ya, ada, yb, adb)) == Ascii("CPaceSidOutput") + LvCat([ya, ada, yb, adb])
    ensures SidOutputInput(TranscriptBytes(ya, ada, yb, adb)) == SidOutputInput(TranscriptBytes(ya', ada', yb', adb')) ==>
              ya == ya' && ada == ada' && yb == yb' && adb == adb'
  {
    var xs, ys := [ya, ada, yb, adb], [ya', ada', yb', adb'];
    var s, t := Ascii("CPaceSidOutput") + LvCat(xs), Ascii("CPaceSidOutput") + LvCat(ys);
    TranscriptIsFourFields(ya, ada, yb, adb);
    TranscriptIsFourFields(ya', ada', yb', adb');
    assert s[14..] == LvCat(xs) && t[14..] == LvCat(ys);
    if s == t {
      LvCatInjective(xs, ys);
      assert xs[0] == ys[0] && xs[1] == ys[1] && xs[2] == ys[2] && xs[3] == ys[3];
    }
  }

  lemma IskMaterialInjective(sid: Bytes, k: Bytes, ya: Bytes, ada: Bytes, yb: Bytes, adb: Bytes,
                             sid': Bytes, k': Bytes, ya': Bytes, ada': Bytes, yb': Bytes, adb': Bytes)
    requires IskMaterial(sid, k, TranscriptBytes(ya, ada, yb, adb))
          == IskMaterial(sid', k', TranscriptBytes(ya', ada', yb', adb'))
    ensures sid == sid' && k == k' && ya == ya' && ada == ada' && yb == yb' && adb == adb'
  {
    IskMaterialIsSevenFields(sid, k, ya, ada, yb, adb);
    IskMaterialIsSevenFields(sid', k', ya', ada', yb', adb');
    var xs, ys := [DSI_ISK, sid, k, ya, ada, yb, adb], [DSI_ISK, sid', k', ya', ada', yb', adb'];
    LvCatInjective(xs, ys);
    assert xs[1] == ys[1] && xs[2] == ys[2] && xs[3] == ys[3];
    assert xs[4] == ys[4] && xs[5] == ys[5] && xs[6] == ys[6];
  }

  /** Raw concatenation is enough because an ISK is always 64 bytes long. */
  lemma MacKeyInputInjective(isk: Bytes, sid: Bytes, isk': Bytes, sid': Bytes)
    requires |isk| == |isk'| == 64
    requires MacKeyInput(isk, sid) == MacKeyInput(isk', sid')
    ensures isk == isk' && sid == sid'
  {
    MacKeyInputDetermined(isk, sid, isk', sid');
  }

  /** When the raw concatenation determines its parts: exactly when the two
      keys are known to have one length. */
  lemma MacKeyInputDetermined(isk: Bytes, sid: Bytes, isk': Bytes, sid': Bytes)
    requires MacKeyInput(isk, sid) == MacKeyInput(isk', sid')
    ensures isk == isk' && sid == sid' <==> |isk| == |isk'|
  {
    var a, b := MacKeyInput(isk, sid), MacKeyInput(isk', sid');
    assert a[8..|a| - |isk|] == sid && b[8..|b| - |isk'|] == sid';
    assert a[|a| - |isk|..] == isk && b[|b| - |isk'|..] == isk';
  }

  /** Without one length every nonempty key has a partner that collides. */
  lemma MacKeyInputAmbiguousWithoutLength(isk: Bytes, sid: Bytes)
    requires isk != []
    ensures MacKeyInput(isk, sid) == MacKeyInput(isk[1..], sid + [isk[0]])
  {
    assert isk == [isk[0]] + isk[1..];
    assert (Ascii("CPaceMac") + sid) + [isk[0]] == Ascii("CPaceMac") + (sid + [isk[0]]);
  }

  // ----- domain separation -----

  lemma {:induction false} FirstLengthByte(xs: seq<Bytes>)
    requires xs != [] && |xs[0]| < 128
    ensures LvCat(xs) != [] && LvCat(xs)[0] == |xs[0]|
  {
    assert LvCat(xs)[0] == LV(xs[0])[0] == Leb(|xs[0]|)[0];
  }

  /** No string is hashed for two of the four SHA-512 purposes. */
  lemma DomainSeparation(prs: Bytes, ci: Bytes, gsid: Bytes, sid: Bytes, k: Bytes, transcript: Bytes,
                         isk: Bytes, msid: Bytes, transcript': Bytes)
    ensures GeneratorString(DSI, prs, ci, gsid, BLOCK_SIZE) != IskMaterial(sid, k, transcript)
    ensures GeneratorString(DSI, prs, ci, gsid, BLOCK_SIZE) != MacKeyInput(isk, msid)
    ensures GeneratorString(DSI, prs, ci, gsid, BLOCK_SIZE) != SidOutputInput(transcript')
    ensures IskMaterial(sid, k, transcript) != MacKeyInput(isk, msid)
    ensures IskMaterial(sid, k, transcript) != SidOutputInput(transcript')
    ensures MacKeyInput(isk, msid) != SidOutputInput(transcript')
  {
    FirstLengthByte([DSI, prs, Zeros(ZpadLength(DSI, prs, BLOCK_SIZE)), ci, gsid]);
    FirstLengthByte([DSI_ISK, sid, k]);
    assert GeneratorString(DSI, prs, ci, gsid, BLOCK_SIZE)[0] == 17;
    assert IskMaterial(sid, k, transcript)[0] == 21;
    assert MacKeyInput(isk, msid)[0] == Ascii("CPaceMac")[0] == 67;
    assert SidOutputInput(transcript')[0] == Ascii("CPaceSidOutput")[0] == 67;
    assert MacKeyInput(isk, msid)[5] == Ascii("CPaceMac")[5] == 77;
    assert SidOutputInput(transcript')[5] == Ascii("CPaceSidOutput")[5] == 83;
  }

  // ----- generator-string layout -----

  /** DSI, password and padding fill the first SHA-512 block exactly whenever
      they fit, so the rest starts on a block boundary; otherwise the padding
      field is empty. Its length always takes one byte. */
  lemma GeneratorStringLayout(prs: Bytes, ci: Bytes, sid: Bytes)
    ensures var zpad := Zeros(ZpadLength(DSI, prs, BLOCK_SIZE));
            && |LV(zpad)| == 1 + |zpad| <= BLOCK_SIZE
            && GeneratorString(DSI, prs, ci, sid, BLOCK_SIZE) == LvCat([DSI, prs, zpad]) + LvCat([ci, sid])
            && (|LV(DSI)| + |LV(prs)| + 1 <= BLOCK_SIZE ==> |LvCat([DSI, prs, zpad])| == BLOCK_SIZE)
            && (|LV(DSI)| + |LV(prs)| + 1 > BLOCK_SIZE ==> zpad == [])
  {
    var zpad := Zeros(ZpadLength(DSI, prs, BLOCK_SIZE));
    assert |LV(DSI)| == 18;
    LvCatAppend([DSI, prs, zpad], [ci, sid]);
    assert [DSI, prs, zpad] + [ci, sid] == [DSI, prs, zpad, ci, sid];
    LvCatThree(DSI, prs, zpad);
  }

  lemma LvCatThree(a: Bytes, b: Bytes, c: Bytes)
    ensures |LvCat([a, b, c])| == |LV(a)| + |LV(b)| + |LV(c)|
  {
    assert [a, b, c][1..] == [b, c] && [b, c][1..] == [c] && [c][1..] == [];
    assert LvCat([c]) == LV(c) + LvCat([]);
  }
}
