// Key derivation over buffers that are overwritten afterwards, and the
// transcript that owns the public bytes. Source: crypto.go, transcript.go.
module Transcripts {
  import opened ByteStrings
  import opened CallerInputs
  import opened HashInputs
  import opened LengthValue
  import opened Suite

  method DeriveISK(p: Primitives, sid: Bytes, k: Bytes, transcript: Bytes)
    returns (out: array<byte>, ghost scratch: set<array<byte>>)
    ensures fresh(out) && out[..] == p.sha512(IskMaterial(sid, k, transcript))
    ensures fresh(scratch) && out !in scratch && forall a | a in scratch :: Wiped(a)
    ensures forall o: object | Store(o) && fresh(o) :: o in scratch + {out}
  {
    var material, prefix := IskMaterialInto(sid, k, transcript);
    var sum := FromSeq(p.sha512(material[..]));
    ClearBytes(material);
    out := Clone(sum);
    ClearBytes(sum);
    scratch := {prefix, material, sum};
  }

  /** Copies the prefix and the transcript together and overwrites the prefix. */
  method IskMaterialInto(sid: Bytes, k: Bytes, transcript: Bytes)
    returns (material: array<byte>, ghost scratch: array<byte>)
    ensures fresh(material) && material[..] == IskMaterial(sid, k, transcript)
    ensures fresh(scratch) && scratch != material && Wiped(scratch)
    ensures forall o: object | Store(o) && fresh(o) :: o == material || o == scratch
  {
    var prefix := LvCatInto([DSI_ISK, sid, k]);
    material := new byte[prefix.len + |transcript|];
    forall i | 0 <= i < prefix.len {
      material[i] := prefix.data[i];
    }
    forall i | 0 <= i < |transcript| {
      material[prefix.len + i] := transcript[i];
    }
    assert prefix.data[..] == prefix.Contents();
    assert material[..] == IskMaterial(sid, k, transcript);
    ClearBytes(prefix.data);
    scratch := prefix.data;
  }

  /** What growing the MAC-key input leaves behind, the ISK not yet in it. */
  ghost predicate MacPrefix(a: array<byte>, sid: Bytes)
    reads a
  {
    Padded(a, Ascii("CPaceMac")) || Padded(a, Ascii("CPaceMac") + sid)
  }

  /** The last array that held the key input is overwritten; arrays that append
      abandoned on the way are not, but none of them has held the ISK. */
  method ComputeTag(p: Primitives, isk: Bytes, sid: Bytes, y: Bytes, ad: Bytes)
    returns (out: array<byte>, ghost scratch: set<array<byte>>, ghost spare: set<array<byte>>)
    ensures fresh(out) && out[..] == ConfirmationTag(p, isk, sid, y, ad)
    ensures fresh(scratch) && out !in scratch && forall a | a in scratch :: Wiped(a)
    ensures fresh(spare) && forall a | a in spare :: MacPrefix(a, sid)
    ensures forall o: object | Store(o) && fresh(o) :: o in scratch + spare + {out}
  {
    var keyInput;
    keyInput, spare := MacKeyInto(isk, sid);
    var digest := p.sha512(keyInput.data[..keyInput.len]);
    var macKey := FromSeq(digest);
    ClearBytes(keyInput.data);
    var mac := p.hmac(digest, MacMessage(y, ad));
    ClearBytes(macKey);
    out := FromSeq(mac);
    scratch := {keyInput.data, macKey};
  }

  method MacKeyInto(isk: Bytes, sid: Bytes) returns (keyInput: Buffer, ghost spare: set<array<byte>>)
    ensures fresh(keyInput) && fresh(keyInput.data) && keyInput.Valid() && keyInput.Contents() == MacKeyInput(isk, sid)
    ensures fresh(spare) && keyInput.data !in spare && forall a | a in spare :: MacPrefix(a, sid)
    ensures forall o: object | Store(o) && fresh(o) :: o in spare + {keyInput.data}
  {
    keyInput := new Buffer(8);
    keyInput.Append(Ascii("CPaceMac"));
    ghost var d0 := keyInput.data;
    keyInput.Append(sid);
    ghost var d1 := keyInput.data;
    keyInput.Append(isk);
    spare := {d0, d1} - {keyInput.data};
    if d0 != keyInput.data {
      assert MacPrefix(d0, sid);
    }
    if d1 != keyInput.data {
      assert MacPrefix(d1, sid);
    }
  }

  /** What growing the transcript leaves behind. */
  ghost predicate TranscriptPart(a: array<byte>, ya: Bytes, ada: Bytes, yb: Bytes, adb: Bytes)
    reads a
  {
    Padded(a, LvCat([ya, ada])) || Padded(a, LvCat([yb, adb])) || Padded(a, TranscriptBytes(ya, ada, yb, adb))
  }

  method Assemble(ya: Bytes, ada: Bytes, yb: Bytes, adb: Bytes)
    returns (t: array<byte>, ghost spare: set<array<byte>>)
    ensures fresh(t) && t[..] == TranscriptBytes(ya, ada, yb, adb)
    ensures fresh(spare) && forall a | a in spare :: TranscriptPart(a, ya, ada, yb, adb)
    ensures forall o: object | Store(o) && fresh(o) :: o in spare + {t}
  {
    var first := LvCatInto([ya, ada]);
    var second := LvCatInto([yb, adb]);
    ghost var d0 := first.data;
    first.Append(second.data[..second.len]);
    t := FromSeq(first.data[..first.len]);
    spare := {d0, first.data, second.data};
  }

  /** What an exchange leaves in memory without overwriting it: bytes of the
      wire, of the sid and of the two tags. */
  ghost predicate LeftOver(a: array<byte>, p: Primitives, v: View)
    reads a
  {
    || MacPrefix(a, v.sid) || TranscriptPart(a, v.ya, v.ada, v.yb, v.adb)
    || a[..] == v.ya || a[..] == v.ada || a[..] == v.yb || a[..] == v.adb
    || a[..] == v.InitiatorTag(p) || a[..] == v.ResponderTag(p)
  }

  ghost predicate AllLeft(spare: set<array<byte>>, p: Primitives, v: View)
    reads spare
  {
    forall a | a in spare :: LeftOver(a, p, v)
  }

  /** Public wire bytes, in the initiator-responder order. */
  class Transcript {
    var transcript: array?<byte>
    var ya: array?<byte>
    var ada: array?<byte>
    var yb: array?<byte>
    var adb: array?<byte>

    ghost function Owned(): set<array<byte>>
      reads this
    {
      Arrays(transcript) + Arrays(ya) + Arrays(ada) + Arrays(yb) + Arrays(adb)
    }

    ghost predicate Full()
      reads this
    {
      transcript != null && ya != null && ada != null && yb != null && adb != null
    }

    ghost function Five(): set<array<byte>>
      reads this
      requires Full()
    {
      {transcript, ya, ada, yb, adb}
    }

    ghost predicate Holds(a: Bytes, ad: Bytes, b: Bytes, bd: Bytes)
      reads this, Owned()
    {
      && Full()
      && transcript[..] == TranscriptBytes(a, ad, b, bd)
      && ya[..] == a && ada[..] == ad && yb[..] == b && adb[..] == bd
    }

    constructor (t: array<byte>, a: array<byte>, ad: array<byte>, b: array<byte>, bd: array<byte>)
      ensures transcript == t && ya == a && ada == ad && yb == b && adb == bd
      ensures forall o: object | Store(o) :: !fresh(o)
    {
      transcript, ya, ada, yb, adb := t, a, ad, b, bd;
    }

    /** Overwrites all five fields and drops them; harmless a second time. */
    method Clear()
      modifies this, Owned()
      ensures Owned() == {}
      ensures transcript == null && ya == null && ada == null && yb == null && adb == null
      ensures forall a | a in old(Owned()) :: Wiped(a)
      ensures forall o: object | Store(o) :: !fresh(o)
    {
      ClearThree(transcript, ya, ada);
      ClearThree(yb, adb, null);
      transcript, ya, ada, yb, adb := null, null, null, null, null;
    }
  }

  /** Clones the four fields and encodes them in initiator-responder order. */
  method NewTranscript(ya: Bytes, ada: Bytes, yb: Bytes, adb: Bytes)
    returns (tr: Transcript, ghost spare: set<array<byte>>)
    ensures fresh(tr) && tr.Holds(ya, ada, yb, adb) && fresh(tr.Five())
    ensures fresh(spare) && forall a | a in spare :: TranscriptPart(a, ya, ada, yb, adb)
    ensures forall o: object | Store(o) && fresh(o) :: o in spare + tr.Five()
  {
    var a := FromSeq(ya);
    var ad := FromSeq(ada);
    var b := FromSeq(yb);
    var bd := FromSeq(adb);
    var t;
    t, spare := Assemble(ya, ada, yb, adb);
    tr := new Transcript(t, a, ad, b, bd);
  }

  /** The ISK of a view and the tag its responder sends. */
  method DeriveWithResponderTag(p: Primitives, sid: Bytes, k: Bytes, tr: Transcript, ghost v: View)
    returns (isk: array<byte>, tagB: array<byte>, ghost scratch: set<array<byte>>, ghost spare: set<array<byte>>)
    requires tr.Holds(v.ya, v.ada, v.yb, v.adb) && sid == v.sid && k == v.k
    ensures fresh(isk) && fresh(tagB) && isk != tagB && fresh(scratch)
    ensures isk !in scratch + spare && tagB !in scratch
    ensures isk[..] == v.Isk(p) && tagB[..] == v.ResponderTag(p)
    ensures forall a | a in scratch :: Wiped(a)
    ensures fresh(spare) && forall a | a in spare :: MacPrefix(a, sid)
    ensures forall o: object | Store(o) && fresh(o) :: o in scratch + spare + {isk, tagB}
  {
    ghost var s1, s2;
    isk, s1 := DeriveISK(p, sid, k, tr.transcript[..]);
    tagB, s2, spare := ComputeTag(p, isk[..], sid, tr.yb[..], tr.adb[..]);
    scratch := s1 + s2;
  }
}
