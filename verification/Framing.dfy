// The binary envelope of messages A, B and C. Source: framing.go, caps.go.
module Framing {
  import opened ByteStrings
  import opened Errors
  import opened LengthValue

  const MAX_SESSION_ID := 1024
  const MAX_ASSOCIATED_DATA := 65536
  const POINT_SIZE := 32
  const TAG_SIZE := 64

  const WIRE_FORMAT: byte := 0xc1
  const WIRE_SUITE: byte := 0x01
  const HEADER_SIZE := 3
  const MAX_MESSAGE_LENGTH := 131072
  const MAX_LEB_BYTES := 3

  /** A named length cap: an upper bound, or an exact length. */
  datatype CapField = CapField(length: nat, exact: bool)
  {
    predicate AcceptsInput(n: nat) { n <= length }

    predicate AcceptsMessage(n: nat) { if exact then n == length else n <= length }
  }

  datatype Spec = Spec(role: byte, fields: seq<CapField>)

  const MESSAGE_A := Spec(0x01, [CapField(MAX_SESSION_ID, false), CapField(POINT_SIZE, true), CapField(MAX_ASSOCIATED_DATA, false)])
  const MESSAGE_B := Spec(0x02, [CapField(POINT_SIZE, true), CapField(MAX_ASSOCIATED_DATA, false), CapField(TAG_SIZE, true)])
  const MESSAGE_C := Spec(0x03, [CapField(TAG_SIZE, true)])

  // ----- specification -----

  ghost predicate Fits(caps: seq<CapField>, fields: seq<Bytes>)
  {
    && |fields| == |caps|
    && forall i | 0 <= i < |caps| :: caps[i].AcceptsMessage(|fields[i]|)
  }

  function Encode(spec: Spec, fields: seq<Bytes>): Bytes
  {
    [WIRE_FORMAT, WIRE_SUITE, spec.role] + LvCat(fields)
  }

  /** The fields of a wire message: defined exactly on the encodings of field
      tuples within the caps. */
  ghost function Parse(spec: Spec, wire: Bytes): (r: Option<seq<Bytes>>)
    ensures r.Some? ==> Fits(spec.fields, r.value) && wire == Encode(spec, r.value)
    ensures r.None? ==> forall fields | Fits(spec.fields, fields) :: wire != Encode(spec, fields)
  {
    if exists fields :: Fits(spec.fields, fields) && wire == Encode(spec, fields) then
      var fields :| Fits(spec.fields, fields) && wire == Encode(spec, fields);
      Some(fields)
    else
      None
  }

  // ----- the three messages in bytes -----

  /** What is accepted as message A, byte by byte: header, session id of at most
      1024 bytes, share of 32, associated data of at most 65536, each behind its
      length. */
  lemma MessageAExactly(wire: Bytes, sid: Bytes, ya: Bytes, ada: Bytes)
    ensures Parse(MESSAGE_A, wire) == Some([sid, ya, ada]) <==>
              && wire == [0xc1, 0x01, 0x01] + LvCat([sid, ya, ada])
              && |sid| <= 1024 && |ya| == 32 && |ada| <= 65536
    ensures Parse(MESSAGE_A, wire).Some? ==> |Parse(MESSAGE_A, wire).value| == 3
  {
    FitsThree(MESSAGE_A.fields, sid, ya, ada);
    if Fits(MESSAGE_A.fields, [sid, ya, ada]) {
      ParseEncode(MESSAGE_A, [sid, ya, ada]);
    }
  }

  lemma MessageBExactly(wire: Bytes, yb: Bytes, adb: Bytes, tag: Bytes)
    ensures Parse(MESSAGE_B, wire) == Some([yb, adb, tag]) <==>
              && wire == [0xc1, 0x01, 0x02] + LvCat([yb, adb, tag])
              && |yb| == 32 && |adb| <= 65536 && |tag| == 64
    ensures Parse(MESSAGE_B, wire).Some? ==> |Parse(MESSAGE_B, wire).value| == 3
  {
    FitsThree(MESSAGE_B.fields, yb, adb, tag);
    if Fits(MESSAGE_B.fields, [yb, adb, tag]) {
      ParseEncode(MESSAGE_B, [yb, adb, tag]);
    }
  }

  lemma MessageCExactly(wire: Bytes, tag: Bytes)
    ensures Parse(MESSAGE_C, wire) == Some([tag]) <==> wire == [0xc1, 0x01, 0x03] + LvCat([tag]) && |tag| == 64
    ensures Parse(MESSAGE_C, wire).Some? ==> |Parse(MESSAGE_C, wire).value| == 1
  {
    assert Fits(MESSAGE_C.fields, [tag]) <==> |tag| == 64 by {
      assert [tag][0] == tag;
    }
    if Fits(MESSAGE_C.fields, [tag]) {
      ParseEncode(MESSAGE_C, [tag]);
    }
  }

  lemma FitsThree(caps: seq<CapField>, a: Bytes, b: Bytes, c: Bytes)
    requires |caps| == 3
    ensures Fits(caps, [a, b, c]) <==>
              caps[0].AcceptsMessage(|a|) && caps[1].AcceptsMessage(|b|) && caps[2].AcceptsMessage(|c|)
  {
    assert [a, b, c][0] == a && [a, b, c][1] == b && [a, b, c][2] == c;
  }

  function MaxFieldsLength(caps: seq<CapField>): nat
  {
    if caps == [] then 0 else MAX_LEB_BYTES + caps[0].length + MaxFieldsLength(caps[1..])
  }

  /** What the package's constant expressions assert: the prefix covers every
      cap and the aggregate cap strictly exceeds every valid message. */
  ghost predicate Bounded(spec: Spec)
  {
    && (forall i | 0 <= i < |spec.fields| :: spec.fields[i].length <= MAX_ASSOCIATED_DATA)
    && HEADER_SIZE + MaxFieldsLength(spec.fields) < MAX_MESSAGE_LENGTH
  }

  lemma PackageSpecsBounded()
    ensures Bounded(MESSAGE_A) && Bounded(MESSAGE_B) && Bounded(MESSAGE_C)
  {
    forall c: CapField
      ensures MaxFieldsLength([c]) == MAX_LEB_BYTES + c.length
    {
      assert [c][1..] == [];
    }
    forall b: CapField, c: CapField
      ensures MaxFieldsLength([b, c]) == 2 * MAX_LEB_BYTES + b.length + c.length
    {
      assert [b, c][1..] == [c];
    }
    assert MESSAGE_A.fields[1..] == [MESSAGE_A.fields[1], MESSAGE_A.fields[2]];
    assert MESSAGE_B.fields[1..] == [MESSAGE_B.fields[1], MESSAGE_B.fields[2]];
  }

  // ----- the codec is a bijection -----

  lemma {:induction false} LvCatPrefixFree(xs: seq<Bytes>, x: Bytes, ys: seq<Bytes>, y: Bytes)
    requires |xs| == |ys| && LvCat(xs) + x == LvCat(ys) + y
    ensures xs == ys && x == y
  {
    if xs != [] {
      assert LvCat(xs) + x == LV(xs[0]) + (LvCat(xs[1..]) + x);
      assert LvCat(ys) + y == LV(ys[0]) + (LvCat(ys[1..]) + y);
      LvPrefixFree(xs[0], LvCat(xs[1..]) + x, ys[0], LvCat(ys[1..]) + y);
      LvCatPrefixFree(xs[1..], x, ys[1..], y);
      assert xs == [xs[0]] + xs[1..] && ys == [ys[0]] + ys[1..];
    } else {
      assert LvCat(xs) + x == x && LvCat(ys) + y == y;
    }
  }

  /** No byte string is the encoding of two messages, be they of one kind or of
      two. */
  lemma EncodeInjective(s: Spec, xs: seq<Bytes>, t: Spec, ys: seq<Bytes>)
    requires Encode(s, xs) == Encode(t, ys)
    ensures s.role == t.role && xs == ys
  {
    assert Encode(s, xs)[2] == s.role && Encode(t, ys)[2] == t.role;
    assert Encode(s, xs)[3..] == LvCat(xs) && Encode(t, ys)[3..] == LvCat(ys);
    LvCatInjective(xs, ys);
  }

  /** Decode after encode is the identity on tuples within the caps; encode
      after decode is the identity by Parse's own contract. */
  lemma ParseEncode(spec: Spec, fields: seq<Bytes>)
    requires Fits(spec.fields, fields)
    ensures Parse(spec, Encode(spec, fields)) == Some(fields)
  {
    var r := Parse(spec, Encode(spec, fields));
    EncodeInjective(spec, r.value, spec, fields);
  }

  /** A wire message belongs to at most one of A, B and C. */
  lemma OneKindOnly(wire: Bytes)
    ensures Parse(MESSAGE_A, wire).None? || Parse(MESSAGE_B, wire).None?
    ensures Parse(MESSAGE_A, wire).None? || Parse(MESSAGE_C, wire).None?
    ensures Parse(MESSAGE_B, wire).None? || Parse(MESSAGE_C, wire).None?
  {
    forall s, t | s in [MESSAGE_A, MESSAGE_B, MESSAGE_C] && t in [MESSAGE_A, MESSAGE_B, MESSAGE_C] && s.role != t.role
      ensures Parse(s, wire).None? || Parse(t, wire).None?
    {
      if Parse(s, wire).Some? && Parse(t, wire).Some? {
        EncodeInjective(s, Parse(s, wire).value, t, Parse(t, wire).value);
      }
    }
  }

  lemma ThreeLebBytes(n: nat)
    requires n <= MAX_ASSOCIATED_DATA
    ensures |Leb(n)| <= MAX_LEB_BYTES
  {
    SevenBits(1);
    SevenBits(2);
    LebLengthBound(n, 3);
  }

  lemma {:induction false} FieldsLengthBound(caps: seq<CapField>, fields: seq<Bytes>)
    requires Fits(caps, fields)
    requires forall i | 0 <= i < |caps| :: caps[i].length <= MAX_ASSOCIATED_DATA
    ensures |LvCat(fields)| <= MaxFieldsLength(caps)
  {
    if caps != [] {
      assert caps[0].AcceptsMessage(|fields[0]|);
      ThreeLebBytes(|fields[0]|);
      FieldsLengthBound(caps[1..], fields[1..]);
    }
  }

  /** A message within its field caps never meets the aggregate cap. */
  lemma ValidMessageBelowCap(spec: Spec, fields: seq<Bytes>)
    requires Bounded(spec) && Fits(spec.fields, fields)
    ensures |Encode(spec, fields)| < MAX_MESSAGE_LENGTH
  {
    FieldsLengthBound(spec.fields, fields);
  }

  // ----- encoder -----

  /** A field-count mismatch panics in the program, so callers must not. */
  method EncodeMessage(spec: Spec, fields: seq<Bytes>) returns (out: Buffer)
    requires |fields| == |spec.fields|
    ensures fresh(out) && fresh(out.data) && out.Valid()
    ensures out.Contents() == Encode(spec, fields)
    ensures out.data.Length == out.len
    ensures forall o: object | Store(o) && fresh(o) :: o == out.data
  {
    ghost var header: Bytes := [WIRE_FORMAT, WIRE_SUITE, spec.role];
    var capacity := HEADER_SIZE;
    for i := 0 to |fields|
      invariant capacity == HEADER_SIZE + |LvCat(fields[..i])|
      invariant forall o: object | Store(o) :: !fresh(o)
    {
      var l := LengthValueLen(|fields[i]|);
      capacity := capacity + l;
      LvCatSnoc(fields, i);
    }
    assert fields[..|fields|] == fields;
    out := new Buffer(capacity);
    out.Append([WIRE_FORMAT, WIRE_SUITE, spec.role]);
    assert fields[..0] == [];
    for i := 0 to |fields|
      invariant fresh(out) && fresh(out.data) && out.Valid()
      invariant out.Contents() == Encode(spec, fields[..i])
      invariant out.data.Length == capacity
      invariant forall o: object | Store(o) && fresh(o) :: o == out.data
    {
      LvCatSnoc(fields, i);
      LvCatPrefix(fields, i + 1);
      out.AppendLengthValue(fields[i]);
      Assoc(header, LvCat(fields[..i]), LV(fields[i]));
    }
  }

  // ----- decoder -----

  class MessageReader {
    const buf: Bytes
    var off: nat

    constructor (buf: Bytes, off: nat)
      ensures this.buf == buf && this.off == off
      ensures forall o: object | Store(o) :: !fresh(o)
    {
      this.buf := buf;
      this.off := off;
    }

    /** Consumes one length-value field that the cap accepts; fails exactly when
        no such field starts here. */
    method ReadField(cap: CapField) returns (r: Result<Bytes>)
      requires off <= |buf|
      requires cap.length <= MAX_ASSOCIATED_DATA
      modifies this
      ensures off <= |buf|
      ensures r.Ok? ==> cap.AcceptsMessage(|r.value|) && buf[old(off)..] == LV(r.value) + buf[off..]
      ensures r.Err? ==> r.error == ERR_MESSAGE && off == old(off)
      ensures forall o: object | Store(o) :: !fresh(o)
      ensures r.Err? ==> forall f: Bytes | cap.AcceptsMessage(|f|) :: !(LV(f) <= buf[off..])
    {
      var l := ReadLEB128(buf, off, MAX_LEB_BYTES);
      if l.Rejected? {
        NoFieldWithoutLength(cap, buf[off..]);
        return Err(ERR_MESSAGE);
      }
      var n, next := l.n, l.next;
      if !cap.AcceptsMessage(n) || |buf| - next < n {
        assert buf[off..][..next - off] == Leb(n);
        NoFieldOfLength(cap, n, buf[off..]);
        return Err(ERR_MESSAGE);
      }
      FieldAt(buf, off, next, n);
      var out := buf[next..next + n];
      off := next + n;
      return Ok(out);
    }
  }

  lemma FieldAt(buf: Bytes, off: nat, next: nat, n: nat)
    requires off <= next <= next + n <= |buf| && buf[off..next] == Leb(n)
    ensures buf[off..] == LV(buf[next..next + n]) + buf[next + n..]
  {
    assert buf[off..] == (buf[off..next] + buf[next..next + n]) + buf[next + n..];
  }

  lemma NoFieldWithoutLength(cap: CapField, s: Bytes)
    requires cap.length <= MAX_ASSOCIATED_DATA
    requires forall n: nat | |Leb(n)| <= MAX_LEB_BYTES :: !(Leb(n) <= s)
    ensures forall f: Bytes | cap.AcceptsMessage(|f|) :: !(LV(f) <= s)
  {
    forall f: Bytes | cap.AcceptsMessage(|f|)
      ensures !(LV(f) <= s)
    {
      ThreeLebBytes(|f|);
      LvPrefix(f, s);
    }
  }

  lemma NoFieldOfLength(cap: CapField, n: nat, s: Bytes)
    requires Leb(n) <= s
    requires !cap.AcceptsMessage(n) || |s| < |Leb(n)| + n
    ensures forall f: Bytes | cap.AcceptsMessage(|f|) :: !(LV(f) <= s)
  {
    forall f: Bytes | cap.AcceptsMessage(|f|)
      ensures !(LV(f) <= s)
    {
      OnlyLength(f, n, s);
    }
  }

  lemma LvPrefix(f: Bytes, s: Bytes)
    ensures LV(f) <= s ==> Leb(|f|) <= s && |Leb(|f|)| + |f| <= |s|
  {
    if LV(f) <= s {
      assert LV(f)[..|Leb(|f|)|] == Leb(|f|);
      assert s[..|LV(f)|] == LV(f);
      assert s[..|Leb(|f|)|] == Leb(|f|);
    }
  }

  lemma OnlyLength(f: Bytes, n: nat, s: Bytes)
    requires Leb(n) <= s
    ensures LV(f) <= s ==> |f| == n && |Leb(n)| + n <= |s|
  {
    LvPrefix(f, s);
    if LV(f) <= s {
      LebPrefixFree(|f|, n, s);
    }
  }

  lemma AfterField(fields: seq<Bytes>, f: Bytes, rest: Bytes)
    ensures LvCat(fields) + (LV(f) + rest) == LvCat(fields + [f]) + rest
  {
    LvCatAppend(fields, [f]);
    assert LvCat([f]) == LV(f);
    Assoc(LvCat(fields), LV(f), rest);
  }

  /** Decoding returns the fields of the one in-cap tuple the message encodes,
      and fails exactly when there is none. */
  method DecodeMessage(spec: Spec, wire: Bytes) returns (r: Result<seq<Bytes>>)
    requires Bounded(spec)
    ensures r.Ok? ==> Fits(spec.fields, r.value) && wire == Encode(spec, r.value)
    ensures r.Err? ==> forall fields | Fits(spec.fields, fields) :: wire != Encode(spec, fields)
    ensures r.Err? ==> r.error == ERR_MESSAGE
    ensures forall o: object | Store(o) :: !fresh(o)
  {
    if |wire| < HEADER_SIZE || wire[0] != WIRE_FORMAT || wire[1] != WIRE_SUITE || wire[2] != spec.role {
      return Err(ERR_MESSAGE);
    }
    if |wire| > MAX_MESSAGE_LENGTH {
      forall fields | Fits(spec.fields, fields)
        ensures wire != Encode(spec, fields)
      {
        ValidMessageBelowCap(spec, fields);
      }
      return Err(ERR_MESSAGE);
    }
    var reader := new MessageReader(wire, HEADER_SIZE);
    var fields: seq<Bytes> := [];
    ghost var body := wire[HEADER_SIZE..];
    for i := 0 to |spec.fields|
      invariant fresh(reader) && reader.buf == wire && reader.off <= |wire|
      invariant Fits(spec.fields[..i], fields)
      invariant body == LvCat(fields) + wire[reader.off..]
      invariant forall o: object | Store(o) :: !fresh(o)
    {
      ghost var rest := wire[reader.off..];
      var f := reader.ReadField(spec.fields[i]);
      if f.Err? {
        NoFieldHere(spec, wire, fields, rest);
        return Err(f.error);
      }
      AfterField(fields, f.value, wire[reader.off..]);
      fields := fields + [f.value];
    }
    assert spec.fields[..|spec.fields|] == spec.fields;
    if reader.off != |wire| {
      TrailingData(spec, wire, fields, wire[reader.off..]);
      return Err(ERR_MESSAGE);
    }
    assert wire == Encode(spec, fields);
    return Ok(fields);
  }

  lemma FirstField(fields: seq<Bytes>)
    requires fields != []
    ensures LV(fields[0]) <= LvCat(fields)
  {
  }

  lemma {:induction false} NextField(read: seq<Bytes>, rest: Bytes, fields: seq<Bytes>)
    requires |read| < |fields| && LvCat(fields) == LvCat(read) + rest
    ensures LV(fields[|read|]) <= rest
    decreases read
  {
    if read == [] {
      assert LvCat(read) + rest == rest;
      FirstField(fields);
    } else {
      Assoc(LV(read[0]), LvCat(read[1..]), rest);
      LvPrefixFree(fields[0], LvCat(fields[1..]), read[0], LvCat(read[1..]) + rest);
      NextField(read[1..], rest, fields[1..]);
    }
  }

  lemma NoFieldHere(spec: Spec, wire: Bytes, read: seq<Bytes>, rest: Bytes)
    requires |wire| >= HEADER_SIZE && |read| < |spec.fields|
    requires wire[HEADER_SIZE..] == LvCat(read) + rest
    requires forall f: Bytes | spec.fields[|read|].AcceptsMessage(|f|) :: !(LV(f) <= rest)
    ensures forall fields | Fits(spec.fields, fields) :: wire != Encode(spec, fields)
  {
    forall fields | Fits(spec.fields, fields)
      ensures wire != Encode(spec, fields)
    {
      assert spec.fields[|read|].AcceptsMessage(|fields[|read|]|);
      assert Encode(spec, fields)[HEADER_SIZE..] == LvCat(fields);
      if LvCat(fields) == LvCat(read) + rest {
        NextField(read, rest, fields);
      }
    }
  }

  lemma TrailingData(spec: Spec, wire: Bytes, read: seq<Bytes>, rest: Bytes)
    requires |wire| >= HEADER_SIZE && |read| == |spec.fields| && rest != []
    requires wire[HEADER_SIZE..] == LvCat(read) + rest
    ensures forall fields | Fits(spec.fields, fields) :: wire != Encode(spec, fields)
  {
    forall fields | Fits(spec.fields, fields)
      ensures wire != Encode(spec, fields)
    {
      if wire == Encode(spec, fields) {
        assert wire[HEADER_SIZE..] == LvCat(fields) + [];
        LvCatPrefixFree(fields, [], read, rest);
        assert false;
      }
    }
  }

  /** The decoder computes Parse. */
  lemma ParsedAs(spec: Spec, wire: Bytes, r: Result<seq<Bytes>>)
    requires r.Ok? ==> Fits(spec.fields, r.value) && wire == Encode(spec, r.value)
    requires r.Err? ==> forall fields | Fits(spec.fields, fields) :: wire != Encode(spec, fields)
    ensures Parse(spec, wire) == if r.Ok? then Some(r.value) else None
  {
    if r.Ok? {
      ParseEncode(spec, r.value);
    }
  }
}
