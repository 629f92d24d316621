/** s3_storage.S3RangeReader: a seekable file over ranged GETs, against a plain in-memory file. */
module RangeReader {
  import opened Common
  import opened Varint

  const HEADER_WINDOW: nat := 65536

  datatype Whence = Set | Current | End

  /** A half-open interval that one GET asked for; the request header carries the inclusive form
      first to past - 1. */
  datatype Range = Range(first: int, past: int)

  /** Section 14.1.2 of RFC 9110: first <= last, inside the object; and the header window is not
      crossed from below. */
  predicate Allowed(r: Range, size: nat) {
    0 <= r.first < r.past <= size && (r.first < HEADER_WINDOW ==> r.past <= HEADER_WINDOW)
  }

  /** Where a plain file's cursor goes. */
  function Sought(pos: int, size: nat, offset: int, whence: Whence): int {
    match whence
    case Set => offset
    case Current => pos + offset
    case End => size + offset
  }

  /** What a plain in-memory file returns for a read of n bytes. */
  function PlainRead(content: seq<Byte>, pos: nat, n: nat): seq<Byte> {
    if pos >= |content| then [] else if pos + n <= |content| then content[pos..pos + n] else content[pos..]
  }

  /** Byte by byte: as many of the n bytes at the position as there are. */
  lemma PlainReadExact(content: seq<Byte>, pos: nat, n: nat)
    ensures var data := PlainRead(content, pos, n);
      && |data| == (if pos >= |content| then 0 else if n <= |content| - pos then n else |content| - pos)
      && forall i :: 0 <= i < |data| ==> data[i] == content[pos + i]
  {
  }

  class Reader {
    const content: seq<Byte>
    var pos: int
    /** The ranges requested so far. */
    ghost var requests: seq<Range>

    constructor (content: seq<Byte>)
      ensures this.content == content && pos == 0 && requests == []
    {
      this.content, pos, requests := content, 0, [];
    }

    ghost predicate Valid()
      reads this
    {
      forall i :: 0 <= i < |requests| ==> Allowed(requests[i], |content|)
    }

    method Seek(offset: int, whence: Whence) returns (r: int)
      modifies this`pos
      ensures pos == r == Sought(old(pos), |content|, offset, whence)
      ensures whence == Set ==> pos == offset
      ensures whence == Current ==> pos == old(pos) + offset
      ensures whence == End ==> pos == |content| + offset
    {
      var base := match whence case Set => 0 case Current => pos case End => |content|;
      pos := base + offset;
      r := pos;
    }

    /** One GET with an inclusive byte range. What a store answers to a malformed range is not
        known: `malformed` is its body then. */
    method GetObject(first: int, last: int, malformed: seq<Byte>) returns (body: seq<Byte>)
      modifies this`requests
      ensures requests == old(requests) + [Range(first, last + 1)]
      ensures body == if 0 <= first <= last < |content| then content[first..last + 1] else malformed
    {
      requests := requests + [Range(first, last + 1)];
      body := if 0 <= first <= last < |content| then content[first..last + 1] else malformed;
    }

    /** A read is short, but never empty, when the buffer reaches past the end of the object or
        across the header window; it is empty only for an empty buffer or at the end. A read that
        sends a request sends an allowed one if and only if the position is not negative. From a
        negative position it delivers whatever the store answers, and raises when that is longer
        than the buffer. */
    method ReadInto(b: array<Byte>, malformed: seq<Byte>) returns (r: Result<nat, string>)
      modifies this`pos, this`requests, b
      ensures b.Length == 0 || old(pos) >= |content| ==>
          r == Ok(0) && requests == old(requests) && pos == old(pos) && b[..] == old(b[..])
      ensures b.Length > 0 && old(pos) < |content| ==>
          |requests| == |old(requests)| + 1 && requests[..|old(requests)|] == old(requests)
          && requests[|old(requests)|].first == old(pos)
          && (Allowed(requests[|old(requests)|], |content|) <==> old(pos) >= 0)
      ensures old(pos) >= 0 ==> r.Ok? && r.value <= b.Length && pos == old(pos) + r.value
      ensures old(pos) >= 0 ==>
          b[..r.value] == PlainRead(content, old(pos), r.value) && b[r.value..] == old(b[r.value..])
      ensures old(pos) >= 0 ==> (r.value == 0 <==> b.Length == 0 || old(pos) >= |content|)
      ensures old(pos) >= 0 && 0 < r.value < b.Length ==> pos == |content| || pos == 65536
      ensures old(pos) >= 0 && r.value > 0 ==> pos <= |content| && (old(pos) < 65536 ==> pos <= 65536)
      ensures old(pos) >= 0 && r.value > 0 ==> requests == old(requests) + [Range(old(pos), old(pos) + r.value)]
      ensures old(pos) < 0 && b.Length > 0 ==>
          if |malformed| > b.Length then r.Err? && pos == old(pos) && b[..] == old(b[..])
          else r == Ok(|malformed|) && b[..|malformed|] == malformed && pos == old(pos) + |malformed|
               && b[|malformed|..] == old(b[|malformed|..])
    {
      if b.Length == 0 {
        return Ok(0);
      }
      if pos >= |content| {
        return Ok(0);
      }
      var endExcl := pos + b.Length;
      if pos < HEADER_WINDOW < endExcl {
        endExcl := HEADER_WINDOW;
      }
      var end := (if endExcl < |content| then endExcl else |content|) - 1;
      var body := GetObject(pos, end, malformed);
      var n := |body|;
      if n > b.Length {
        return Err("slice assignment of a different size");
      }
      forall i | 0 <= i < n {
        b[i] := body[i];
      }
      assert b[..n] == body;
      pos := pos + n;
      return Ok(n);
    }

    /** A read from a non-negative position, for the layers above. */
    method ReadSome(b: array<Byte>) returns (n: nat)
      requires Valid() && pos >= 0
      modifies this, b
      ensures Valid() && n <= b.Length && pos == old(pos) + n
      ensures b[..n] == PlainRead(content, old(pos), n)
      ensures n == 0 <==> b.Length == 0 || old(pos) >= |content|
    {
      ghost var before := requests;
      var r := ReadInto(b, []);
      n := r.value;
      assert forall i :: 0 <= i < |before| ==> requests[i] == requests[..|before|][i];
    }

    /** The buffered layer's loop: read until n bytes have arrived or the end is reached. It
        makes progress on every turn, and short reads do not show in the result. */
    method ReadFully(n: nat) returns (data: seq<Byte>)
      requires Valid() && pos >= 0
      modifies this
      ensures Valid() && data == PlainRead(content, old(pos), n) && pos == old(pos) + |data|
    {
      data := [];
      ghost var start := pos;
      while |data| < n
        invariant Valid() && |data| <= n && pos == start + |data|
        invariant data == PlainRead(content, start, |data|)
        decreases n - |data|
      {
        var b := new Byte[n - |data|];
        var k := ReadSome(b);
        if k == 0 {
          break;
        }
        Extended(content, start, |data|, k);
        data := data + b[..k];
      }
    }

    /** Read until the end: terminates with exactly the rest of the object. */
    method ReadAll(chunk: nat) returns (data: seq<Byte>)
      requires Valid() && pos >= 0 && chunk > 0
      modifies this
      ensures Valid() && data == if old(pos) <= |content| then content[old(pos)..] else []
    {
      data := [];
      ghost var start := pos;
      while true
        invariant Valid() && pos == start + |data| && data == PlainRead(content, start, |data|)
        decreases |content| - pos
      {
        var b := new Byte[chunk];
        var k := ReadSome(b);
        if k == 0 {
          return;
        }
        Extended(content, start, |data|, k);
        data := data + b[..k];
      }
    }

    /** Any sequence of seeks and reads gives what the plain file gives, and asks only for
        allowed ranges. */
    method Perform(ops: seq<Op>) returns (results: seq<seq<Byte>>)
      requires Valid() && pos >= 0 && NonNegative(content, pos, ops)
      modifies this
      ensures Valid() && pos == PlainPos(content, old(pos), ops) && results == PlainReads(content, old(pos), ops)
    {
      results := [];
      ghost var start := pos;
      assert ops[..0] == [];
      for i := 0 to |ops|
        invariant Valid() && pos >= 0 && NonNegative(content, start, ops)
        invariant pos == PlainPos(content, start, ops[..i]) && results == PlainReads(content, start, ops[..i])
      {
        assert ops[..i + 1][..i] == ops[..i];
        assert PlainPos(content, start, ops[..i + 1]) >= 0;
        match ops[i] {
          case SeekOp(offset, whence) =>
            var r := Seek(offset, whence);
          case ReadOp(n) =>
            var data := ReadFully(n);
            results := results + [data];
        }
      }
      assert ops[..|ops|] == ops;
    }
  }

  lemma Extended(content: seq<Byte>, start: nat, n: nat, k: nat)
    requires |PlainRead(content, start, n)| == n && |PlainRead(content, start + n, k)| == k
    ensures PlainRead(content, start, n + k) == PlainRead(content, start, n) + PlainRead(content, start + n, k)
  {
  }

  // ---- the reference: a plain in-memory file ----

  datatype Op = SeekOp(offset: int, whence: Whence) | ReadOp(n: nat)

  function PlainPos(content: seq<Byte>, pos: int, ops: seq<Op>): int {
    if ops == [] then pos
    else
      var p := PlainPos(content, pos, ops[..|ops| - 1]);
      match ops[|ops| - 1]
      case SeekOp(offset, whence) => Sought(p, |content|, offset, whence)
      case ReadOp(n) => if p < 0 then p else p + |PlainRead(content, p, n)|
  }

  function PlainReads(content: seq<Byte>, pos: int, ops: seq<Op>): seq<seq<Byte>> {
    if ops == [] then []
    else
      var p, init := PlainPos(content, pos, ops[..|ops| - 1]), PlainReads(content, pos, ops[..|ops| - 1]);
      match ops[|ops| - 1]
      case SeekOp(_, _) => init
      case ReadOp(n) => if p < 0 then init else init + [PlainRead(content, p, n)]
  }

  /** No seek leaves the cursor before the start. */
  ghost predicate NonNegative(content: seq<Byte>, pos: int, ops: seq<Op>) {
    forall i :: 0 <= i <= |ops| ==> PlainPos(content, pos, ops[..i]) >= 0
  }
}
