/** The chunked-body decoder of src/httpc.rs and the loop that feeds it:
    section 7.1 of RFC 9112. */
module Chunked {
  import opened Text
  import Hex

  const CRLF: seq<Byte> := [13, 10]
  const USIZE := 0x1_0000_0000_0000_0000

  /** `find_subslice`: where the first occurrence begins. */
  function FindSubslice(haystack: seq<Byte>, needle: seq<Byte>): (r: Option<nat>)
    requires needle != []
    ensures r.Some? ==> r.value + |needle| <= |haystack|
  {
    if |haystack| < |needle| then None
    else if haystack[..|needle|] == needle then Some(0)
    else
      var i :- FindSubslice(haystack[1..], needle);
      Some(i + 1)
  }

  predicate OccursAt(haystack: seq<Byte>, needle: seq<Byte>, i: nat) {
    i + |needle| <= |haystack| && haystack[i..i + |needle|] == needle
  }

  lemma {:induction false} FindsFirst(haystack: seq<Byte>, needle: seq<Byte>)
    requires needle != []
    ensures match FindSubslice(haystack, needle)
      case Some(i) => OccursAt(haystack, needle, i) && forall j: nat :: j < i ==> !OccursAt(haystack, needle, j)
      case None => forall j: nat :: !OccursAt(haystack, needle, j)
  {
    if |haystack| >= |needle| && haystack[..|needle|] != needle {
      var tail := haystack[1..];
      FindsFirst(tail, needle);
      forall j: nat | j + 1 + |needle| <= |haystack|
        ensures OccursAt(haystack, needle, j + 1) <==> OccursAt(tail, needle, j)
      {
        SameSlice(haystack, j, |needle|);
      }
      forall j: nat | OccursAt(haystack, needle, j)
        ensures j > 0 && OccursAt(tail, needle, j - 1)
      {
      }
    }
  }

  lemma SameSlice(b: seq<Byte>, j: nat, n: nat)
    requires j + 1 + n <= |b|
    ensures b[j + 1..j + 1 + n] == b[1..][j..j + n]
  {
    var left, right := b[j + 1..j + 1 + n], b[1..][j..j + n];
    assert forall k :: 0 <= k < n ==> left[k] == b[j + 1 + k] && right[k] == b[1..][j + k];
    assert left == right;
  }

  // ---------------------------------------------------------------------
  // Chunk headers
  // ---------------------------------------------------------------------

  predicate Continues(b: Byte) {
    0x80 <= b < 0xC0
  }

  /** The first scalar value of a UTF-8 text and its length in bytes. */
  function FirstChar(b: seq<Byte>): (r: Option<(char, nat)>)
    ensures r.Some? ==> 1 <= r.value.1 <= |b|
  {
    if b == [] then None
    else
      var lead: int := b[0];
      if lead < 0x80 then Some((lead as char, 1))
      else if 0xC2 <= lead < 0xE0 && |b| >= 2 && Continues(b[1]) then
        var n := (lead - 0xC0) * 64 + Low(b[1]);
        Some((n as char, 2))
      else if 0xE0 <= lead < 0xF0 && |b| >= 3 && Continues(b[1]) && Continues(b[2]) then
        var n := (lead - 0xE0) * 4096 + Low(b[1]) * 64 + Low(b[2]);
        if n < 0x800 || 0xD800 <= n < 0xE000 then None else Some((n as char, 3))
      else if 0xF0 <= lead < 0xF5 && |b| >= 4 && Continues(b[1]) && Continues(b[2]) && Continues(b[3]) then
        var n := (lead - 0xF0) * 262144 + Low(b[1]) * 4096 + Low(b[2]) * 64 + Low(b[3]);
        if n < 0x10000 || n >= 0x110000 then None else Some((n as char, 4))
      else None
  }

  function Low(b: Byte): (n: int)
    requires Continues(b)
    ensures 0 <= n < 64
  {
    b - 0x80
  }

  /** `std::str::from_utf8`. */
  function FromUtf8(b: seq<Byte>): Option<string>
    decreases |b|
  {
    if b == [] then Some("")
    else
      var c :- FirstChar(b);
      var rest :- FromUtf8(b[c.1..]);
      Some([c.0] + rest)
  }

  /** The text before the first `;`, where chunk extensions begin. */
  function BeforeSemicolon(s: string): string {
    if s == "" || s[0] == ';' then "" else [s[0]] + BeforeSemicolon(s[1..])
  }

  function HexNumber(s: string): Option<nat> {
    if s == "" then Some(0)
    else
      var high :- HexNumber(s[..|s| - 1]);
      var low :- HexValue(s[|s| - 1]);
      Some(16 * high + low)
  }

  /** `usize::from_str_radix(s, 16)`: one `+` is allowed, no digits are not. */
  function FromStrRadix16(s: string): Option<nat> {
    var digits := if s != "" && s[0] == '+' then s[1..] else s;
    if digits == "" then None
    else
      var n :- HexNumber(digits);
      if n < USIZE then Some(n) else None
  }

  function ParseSize(header: seq<Byte>): Option<nat> {
    var s :- FromUtf8(header);
    FromStrRadix16(Trim(BeforeSemicolon(s)))
  }

  // ---------------------------------------------------------------------
  // The decoder
  // ---------------------------------------------------------------------

  /** What lies at the front of some bytes: a whole body and what follows its
      last header; a body whose end has not arrived; or no chunked body. */
  datatype Scanned =
    | Done(body: seq<Byte>, rest: seq<Byte>)
    | Incomplete
    | Malformed

  function Prepend(data: seq<Byte>, s: Scanned): Scanned {
    if s.Done? then Done(data + s.body, s.rest) else s
  }

  function Scan(b: seq<Byte>): Scanned
    decreases |b|
  {
    var end := FindSubslice(b, CRLF);
    if end.None? then Incomplete
    else
      var size := ParseSize(b[..end.value]);
      var data := b[end.value + 2..];
      if size.None? then Malformed
      else if size.value == 0 then Done([], data)
      else if size.value + 2 > |data| then Incomplete
      else Prepend(data[..size.value], Scan(data[size.value + 2..]))
  }

  /** A header whose size, added to the cursor behind it, exceeds a `usize`. With
      overflow checks the addition panics; without them the sum wraps below
      the cursor, and slicing backwards panics. */
  predicate Overflows(b: seq<Byte>, at: nat)
    decreases |b|
  {
    var end := FindSubslice(b, CRLF);
    end.Some? &&
    var size := ParseSize(b[..end.value]);
    var data, pos := b[end.value + 2..], at + end.value + 2;
    size.Some? && size.value > 0 &&
    (|| pos + size.value >= USIZE
     || (size.value + 2 <= |data| && Overflows(data[size.value + 2..], pos + size.value + 2)))
  }

  datatype Decoded = Body(bytes: seq<Byte>) | Failed | Panicked

  /** What decoding some bytes comes to. */
  function Outcome(b: seq<Byte>): Decoded {
    if Overflows(b, 0) then Panicked else if Scan(b).Done? then Body(Scan(b).body) else Failed
  }

  /** `decode_chunked_body`. Every turn of the loop moves the cursor on. */
  method DecodeChunkedBody(raw: seq<Byte>) returns (r: Decoded)
    ensures r == Outcome(raw)
  {
    hide ParseSize, FindSubslice, Scan, Overflows;
    var out: seq<Byte> := [];
    var pos := 0;
    assert raw[0..] == raw;
    NothingPrepended(Scan(raw));
    while true
      invariant 0 <= pos <= |raw|
      invariant Prepend(out, Scan(raw[pos..])) == Scan(raw)
      invariant Overflows(raw[pos..], pos) <==> Overflows(raw, 0)
      decreases |raw| - pos
    {
      ghost var tail := raw[pos..];
      TurnOf(tail, pos);
      var end := FindSubslice(raw[pos..], CRLF);
      if end.None? {
        return Failed;
      }
      var lineEnd := end.value + pos;
      Sliced(raw, pos, end.value);
      var size := ParseSize(raw[pos..lineEnd]);
      if size.None? {
        return Failed;
      }
      Tailed(raw, pos, end.value + 2);
      ghost var data := tail[end.value + 2..];
      pos := lineEnd + 2;
      if size.value == 0 {
        assert out + [] == out;
        return Body(out);
      }
      if pos + size.value >= USIZE {
        return Panicked;
      }
      if pos + size.value > |raw| {
        return Failed;
      }
      var chunk := raw[pos..pos + size.value];
      Sliced(raw, pos, size.value);
      PrependTwice(out, chunk, if size.value + 2 <= |data| then Scan(data[size.value + 2..]) else Incomplete);
      out := out + chunk;
      pos := pos + size.value;
      if |raw| < pos + 2 {
        return Failed;
      }
      Tailed(raw, pos - size.value, size.value + 2);
      pos := pos + 2;
    }
  }

  /** What the decoder finds at the front of some bytes, behind `at` others. */
  lemma TurnOf(b: seq<Byte>, at: nat)
    ensures var end := FindSubslice(b, CRLF);
      if end.None? then Scan(b) == Incomplete && !Overflows(b, at)
      else
        var data, size := b[end.value + 2..], ParseSize(b[..end.value]);
        if size.None? then Scan(b) == Malformed && !Overflows(b, at)
        else
          var n, q := size.value, at + end.value + 2 + size.value;
          if n == 0 then Scan(b) == Done([], data) && !Overflows(b, at)
          else if n + 2 > |data| then Scan(b) == Incomplete && (Overflows(b, at) <==> q >= USIZE)
          else Scan(b) == Prepend(data[..n], Scan(data[n + 2..]))
               && (Overflows(b, at) <==> q >= USIZE || Overflows(data[n + 2..], q + 2))
  {
    hide ParseSize, FindSubslice, Prepend;
  }

  lemma Sliced(b: seq<Byte>, pos: nat, n: nat)
    requires pos + n <= |b|
    ensures b[pos..][..n] == b[pos..pos + n]
  {
  }

  lemma Tailed(b: seq<Byte>, pos: nat, i: nat)
    requires pos + i <= |b|
    ensures b[pos..][i..] == b[pos + i..]
  {
  }

  lemma NothingPrepended(s: Scanned)
    ensures Prepend([], s) == s
  {
    assert s.Done? ==> [] + s.body == s.body;
  }

  lemma PrependTwice(a: seq<Byte>, b: seq<Byte>, s: Scanned)
    ensures Prepend(a, Prepend(b, s)) == Prepend(a + b, s)
  {
    assert s.Done? ==> a + (b + s.body) == (a + b) + s.body;
  }

  // ---------------------------------------------------------------------
  // More bytes do not change an answer
  // ---------------------------------------------------------------------

  lemma {:induction false} FoundStaysFound(b: seq<Byte>, needle: seq<Byte>, more: seq<Byte>)
    requires needle != [] && FindSubslice(b, needle).Some?
    ensures FindSubslice(b + more, needle) == FindSubslice(b, needle)
  {
    assert (b + more)[..|needle|] == b[..|needle|];
    if b[..|needle|] != needle {
      assert (b + more)[1..] == b[1..] + more;
      FoundStaysFound(b[1..], needle, more);
    }
  }

  function Extended(s: Scanned, more: seq<Byte>): Scanned {
    if s.Done? then Done(s.body, s.rest + more) else s
  }

  /** Once the decoder has succeeded, or has found a header it cannot read,
      more bytes do not change its answer; only `Incomplete` is provisional. */
  lemma {:induction false} AnswersAreFinal(b: seq<Byte>, more: seq<Byte>)
    requires !Scan(b).Incomplete?
    ensures Scan(b + more) == Extended(Scan(b), more)
    decreases |b|
  {
    hide ParseSize, FindSubslice;
    FoundStaysFound(b, CRLF, more);
    var all := b + more;
    var end := FindSubslice(b, CRLF).value;
    assert all[..end] == b[..end];
    var data := b[end + 2..];
    assert all[end + 2..] == data + more;
    var size := ParseSize(b[..end]);
    if size.Some? && size.value > 0 {
      var n := size.value;
      assert (data + more)[..n] == data[..n];
      assert (data + more)[n + 2..] == data[n + 2..] + more;
      AnswersAreFinal(data[n + 2..], more);
    }
  }

  lemma {:induction false} OverflowIsFinal(b: seq<Byte>, more: seq<Byte>, at: nat)
    requires Overflows(b, at)
    ensures Overflows(b + more, at)
    decreases |b|
  {
    hide ParseSize, FindSubslice;
    FoundStaysFound(b, CRLF, more);
    var end := FindSubslice(b, CRLF).value;
    assert (b + more)[..end] == b[..end];
    var data, pos := b[end + 2..], at + end + 2;
    assert (b + more)[end + 2..] == data + more;
    var n := ParseSize(b[..end]).value;
    if pos + n < USIZE {
      assert (data + more)[n + 2..] == data[n + 2..] + more;
      OverflowIsFinal(data[n + 2..], more, pos + n + 2);
    }
  }

  /** What decodes has room for all its chunks. */
  lemma {:induction false} DoneFits(b: seq<Byte>, at: nat)
    requires Scan(b).Done? && at + |b| < USIZE
    ensures !Overflows(b, at)
    decreases |b|
  {
    hide ParseSize, FindSubslice;
    var end := FindSubslice(b, CRLF).value;
    var data, pos := b[end + 2..], at + end + 2;
    var n := ParseSize(b[..end]).value;
    if n > 0 {
      DoneFits(data[n + 2..], pos + n + 2);
    }
  }

  function Concat(parts: seq<seq<Byte>>): seq<Byte> {
    if parts == [] then [] else parts[0] + Concat(parts[1..])
  }

  lemma {:induction false} ConcatSnoc(parts: seq<seq<Byte>>, last: seq<Byte>)
    ensures Concat(parts + [last]) == Concat(parts) + last
  {
    if parts == [] {
      assert [] + [last] == [last] && [last][1..] == [];
    } else {
      assert (parts + [last])[1..] == parts[1..] + [last];
      ConcatSnoc(parts[1..], last);
    }
  }

  lemma {:induction false} ConcatSplit(parts: seq<seq<Byte>>, i: nat)
    requires i <= |parts|
    ensures Concat(parts) == Concat(parts[..i]) + Concat(parts[i..])
  {
    if i == 0 {
      assert parts[..0] == [] && parts[0..] == parts;
    } else {
      assert parts[..i][1..] == parts[1..][..i - 1] && parts[i..] == parts[1..][i - 1..];
      ConcatSplit(parts[1..], i - 1);
    }
  }

  /** The read loop of `request`: decode, and on any error read the next
      fragment; the end of the stream is an error. Its answer depends only on
      the bytes that arrive, not on where the network splits them. */
  method ReadChunkedBody(first: seq<Byte>, fragments: seq<seq<Byte>>) returns (r: Decoded)
    requires forall f :: f in fragments ==> f != []
    requires |first + Concat(fragments)| < USIZE
    ensures r == Outcome(first + Concat(fragments))
  {
    hide Scan, Overflows;
    var body := first;
    assert fragments[..0] == [] && first + [] == first;
    for i := 0 to |fragments|
      invariant body == first + Concat(fragments[..i])
    {
      var d := DecodeChunkedBody(body);
      if !d.Failed? {
        var more := Concat(fragments[i..]);
        ConcatSplit(fragments, i);
        assert body + more == first + Concat(fragments);
        if d.Body? {
          AnswersAreFinal(body, more);
          DoneFits(body + more, 0);
        } else {
          OverflowIsFinal(body, more, 0);
        }
        return d;
      }
      assert fragments[..i + 1] == fragments[..i] + [fragments[i]];
      ConcatSnoc(fragments[..i], fragments[i]);
      body := body + fragments[i];
    }
    assert fragments[..|fragments|] == fragments;
    r := DecodeChunkedBody(body);
  }

  const BLANK_LINE: seq<Byte> := [13, 10, 13, 10]

  /** The first loop of `request`: read until the blank line that ends the
      header. `used` fragments have been read; `body` is what came after the
      header with the last of them. */
  method ReadHead(fragments: seq<seq<Byte>>) returns (found: bool, head: seq<Byte>, body: seq<Byte>, used: nat)
    requires forall f :: f in fragments ==> f != []
    ensures used <= |fragments|
    ensures var i := FindSubslice(Concat(fragments), [13, 10, 13, 10]);
      && (found <==> i.Some?)
      && (found ==> head == Concat(fragments)[..i.value + 4]
                    && body + Concat(fragments[used..]) == Concat(fragments)[i.value + 4..])
  {
    hide FindSubslice;
    found, head, body, used := false, [], [], 0;
    var raw: seq<Byte> := [];
    assert fragments[..0] == [] && !FindSubslice([], BLANK_LINE).Some?;
    while used < |fragments|
      invariant used <= |fragments|
      invariant raw == Concat(fragments[..used]) && FindSubslice(raw, BLANK_LINE).None?
    {
      assert fragments[..used + 1] == fragments[..used] + [fragments[used]];
      ConcatSnoc(fragments[..used], fragments[used]);
      raw := raw + fragments[used];
      used := used + 1;
      var i := FindSubslice(raw, BLANK_LINE);
      if i.Some? {
        ConcatSplit(fragments, used);
        FoundStaysFound(raw, BLANK_LINE, Concat(fragments[used..]));
        found, head, body := true, raw[..i.value + 4], raw[i.value + 4..];
        return;
      }
    }
    assert fragments[..|fragments|] == fragments;
  }

  /** A chunked response: header, then body. The answer is a function of the
      bytes of the whole stream, however it was split. */
  method ReadChunkedResponse(fragments: seq<seq<Byte>>) returns (r: Decoded)
    requires forall f :: f in fragments ==> f != []
    requires |Concat(fragments)| < USIZE
    ensures var all := Concat(fragments);
      var i := FindSubslice(all, [13, 10, 13, 10]);
      r == if i.None? then Failed else Outcome(all[i.value + 4..])
  {
    hide FindSubslice, Scan, Overflows;
    var found, _, body, used := ReadHead(fragments);
    if !found {
      return Failed;
    }
    assert forall f :: f in fragments[used..] ==> f in fragments;
    r := ReadChunkedBody(body, fragments[used..]);
  }

  // ---------------------------------------------------------------------
  // The grammar of what is accepted
  // ---------------------------------------------------------------------

  /** A chunk as it stands on the wire. The decoder skips two bytes after the
      data without looking at them. */
  datatype Chunk = Chunk(header: seq<Byte>, data: seq<Byte>, close: seq<Byte>)

  /** A header that ends at its own line break. */
  predicate Header(h: seq<Byte>) {
    FindSubslice(h + CRLF, CRLF) == Some(|h|)
  }

  predicate ValidChunk(c: Chunk) {
    Header(c.header) && c.data != [] && ParseSize(c.header) == Some(|c.data|) && |c.close| == 2
  }

  predicate LastHeader(h: seq<Byte>) {
    Header(h) && ParseSize(h) == Some(0)
  }

  function OnWire(c: Chunk): seq<Byte> {
    c.header + CRLF + c.data + c.close
  }

  function Stream(chunks: seq<Chunk>, last: seq<Byte>): seq<Byte> {
    if chunks == [] then last + CRLF else OnWire(chunks[0]) + Stream(chunks[1..], last)
  }

  function Payload(chunks: seq<Chunk>): seq<Byte> {
    if chunks == [] then [] else chunks[0].data + Payload(chunks[1..])
  }

  predicate AllValid(chunks: seq<Chunk>) {
    forall i :: 0 <= i < |chunks| ==> ValidChunk(chunks[i])
  }

  lemma HeaderScans(h: seq<Byte>, tail: seq<Byte>)
    requires Header(h)
    ensures var b := h + CRLF + tail;
      FindSubslice(b, CRLF) == Some(|h|) && b[..|h|] == h && b[|h| + 2..] == tail
  {
    FoundStaysFound(h + CRLF, CRLF, tail);
  }

  lemma ChunkScans(c: Chunk, tail: seq<Byte>)
    requires ValidChunk(c)
    ensures Scan(OnWire(c) + tail) == Prepend(c.data, Scan(tail))
  {
    hide FindSubslice, ParseSize;
    var after := c.data + c.close + tail;
    HeaderScans(c.header, after);
    assert OnWire(c) + tail == c.header + CRLF + after;
    assert after[..|c.data|] == c.data && after[|c.data| + 2..] == tail;
  }

  lemma LastScans(h: seq<Byte>, tail: seq<Byte>)
    requires LastHeader(h)
    ensures Scan(h + CRLF + tail) == Done([], tail)
  {
    hide FindSubslice, ParseSize;
    HeaderScans(h, tail);
  }

  /** Every stream of the grammar, whatever follows it, decodes to the data of
      its chunks. The data may itself hold line breaks. */
  lemma {:induction false} StreamScans(chunks: seq<Chunk>, last: seq<Byte>, tail: seq<Byte>)
    requires AllValid(chunks) && LastHeader(last)
    ensures Scan(Stream(chunks, last) + tail) == Done(Payload(chunks), tail)
  {
    hide Scan, ValidChunk, LastHeader;
    if chunks == [] {
      LastScans(last, tail);
    } else {
      var c, more := chunks[0], chunks[1..];
      StreamScans(more, last, tail);
      ChunkScans(c, Stream(more, last) + tail);
      assert Stream(chunks, last) + tail == OnWire(c) + (Stream(more, last) + tail);
    }
  }

  lemma {:induction false} FirstIsThere(b: seq<Byte>, needle: seq<Byte>)
    requires needle != [] && FindSubslice(b, needle).Some?
    ensures var i := FindSubslice(b, needle).value;
      b[i..i + |needle|] == needle && FindSubslice(b[..i + |needle|], needle) == Some(i)
  {
    var i := FindSubslice(b, needle).value;
    var cut := b[..i + |needle|];
    if i == 0 {
      assert cut == needle && cut[..|needle|] == needle;
    } else {
      var tail := b[1..];
      FirstIsThere(tail, needle);
      SameSlice(b, i - 1, |needle|);
      assert cut[1..] == tail[..i - 1 + |needle|];
      assert cut[..|needle|] == b[..|needle|];
    }
  }

  lemma HeaderOf(b: seq<Byte>)
    requires FindSubslice(b, CRLF).Some?
    ensures var i := FindSubslice(b, CRLF).value; Header(b[..i]) && b == b[..i] + CRLF + b[i + 2..]
  {
    hide FindSubslice;
    var i := FindSubslice(b, CRLF).value;
    FirstIsThere(b, CRLF);
    assert b[..i + 2] == b[..i] + b[i..i + 2];
    assert b == b[..i + 2] + b[i + 2..];
  }

  /** The other way: whatever decodes is a stream of the grammar. */
  lemma {:induction false} ScannedIsStream(b: seq<Byte>) returns (chunks: seq<Chunk>, last: seq<Byte>)
    requires Scan(b).Done?
    ensures AllValid(chunks) && LastHeader(last)
    ensures b == Stream(chunks, last) + Scan(b).rest && Scan(b).body == Payload(chunks)
    decreases |b|
  {
    hide Scan, ValidChunk, LastHeader;
    var c, tail, ends := TakeChunk(b);
    if ends {
      chunks, last := [], c.header;
    } else {
      var more, l := ScannedIsStream(tail);
      chunks, last := [c] + more, l;
      assert chunks[1..] == more;
      assert OnWire(c) + (Stream(more, l) + Scan(tail).rest) == (OnWire(c) + Stream(more, l)) + Scan(tail).rest;
    }
  }

  /** One turn of the decoder: the last header, or a chunk. */
  lemma TakeChunk(b: seq<Byte>) returns (c: Chunk, tail: seq<Byte>, ends: bool)
    requires Scan(b).Done?
    ensures ends ==> LastHeader(c.header) && b == c.header + CRLF + Scan(b).rest && Scan(b).body == []
    ensures !ends ==> ValidChunk(c) && b == OnWire(c) + tail && |tail| < |b|
    ensures !ends ==> Scan(tail).Done? && Scan(b) == Prepend(c.data, Scan(tail))
  {
    hide FindSubslice, ParseSize, Header, OnWire;
    HeaderOf(b);
    var end := FindSubslice(b, CRLF).value;
    var header, data := b[..end], b[end + 2..];
    var size := ParseSize(header).value;
    ends := size == 0;
    if ends {
      c, tail := Chunk(header, [], []), data;
    } else {
      c, tail := Chunk(header, data[..size], data[size..size + 2]), data[size + 2..];
      SplitData(header, data, size);
    }
  }

  lemma SplitData(header: seq<Byte>, data: seq<Byte>, n: nat)
    requires n + 2 <= |data|
    ensures var c := Chunk(header, data[..n], data[n..n + 2]);
      && header + CRLF + data == OnWire(c) + data[n + 2..]
      && |OnWire(c)| == |header| + 2 + n + 2
  {
    var x, y, z := data[..n], data[n..n + 2], data[n + 2..];
    assert data == x + y + z;
    assert header + CRLF + (x + y + z) == (header + CRLF + x + y) + z;
  }

  ghost predicate Encodes(b: seq<Byte>, body: seq<Byte>) {
    exists chunks, last, rest :: StreamOf(chunks, last, rest, b) && Payload(chunks) == body
  }

  predicate StreamOf(chunks: seq<Chunk>, last: seq<Byte>, rest: seq<Byte>, b: seq<Byte>) {
    AllValid(chunks) && LastHeader(last) && b == Stream(chunks, last) + rest
  }

  /** The decoder succeeds exactly on the streams of the grammar, and with
      exactly the data of their chunks. */
  lemma DecodesExactly(b: seq<Byte>, body: seq<Byte>)
    requires |b| < USIZE
    ensures Outcome(b) == Body(body) <==> Encodes(b, body)
  {
    hide Scan, Overflows, AllValid, LastHeader;
    if Outcome(b) == Body(body) {
      var chunks, last := ScannedIsStream(b);
      assert StreamOf(chunks, last, Scan(b).rest, b);
    }
    if Encodes(b, body) {
      var chunks, last, rest :| StreamOf(chunks, last, rest, b) && Payload(chunks) == body;
      StreamScans(chunks, last, rest);
      DoneFits(b, 0);
    }
  }

  ghost predicate Overlong(b: seq<Byte>, at: nat) {
    exists chunks, header, rest :: OverlongAt(b, at, chunks, header, rest)
  }

  /** After some whole chunks, a header announces more than can be addressed. */
  predicate OverlongAt(b: seq<Byte>, at: nat, chunks: seq<Chunk>, header: seq<Byte>, rest: seq<Byte>) {
    && AllValid(chunks) && Header(header) && b == Stream(chunks, header) + rest
    && ParseSize(header).Some? && ParseSize(header).value > 0
    && at + |Stream(chunks, header)| + ParseSize(header).value >= USIZE
  }

  lemma OverflowTurn(b: seq<Byte>, at: nat)
    requires Overflows(b, at)
    ensures var end := FindSubslice(b, CRLF);
      && end.Some?
      && var data, size := b[end.value + 2..], ParseSize(b[..end.value]);
      && size.Some? && size.value > 0
      && (at + end.value + 2 + size.value < USIZE ==>
            && size.value + 2 <= |data|
            && Overflows(data[size.value + 2..], at + end.value + 2 + size.value + 2))
  {
    hide ParseSize, FindSubslice;
  }

  lemma ChunkIsValid(header: seq<Byte>, data: seq<Byte>, n: nat)
    requires Header(header) && ParseSize(header) == Some(n) && 0 < n && n + 2 <= |data|
    ensures ValidChunk(Chunk(header, data[..n], data[n..n + 2]))
  {
    hide ParseSize, Header;
  }

  /** One turn of a decoder that will panic: at this header, or after a chunk. */
  lemma TakeOverlong(b: seq<Byte>, at: nat) returns (c: Chunk, tail: seq<Byte>, here: bool)
    requires Overflows(b, at)
    ensures here ==> Header(c.header) && b == c.header + CRLF + tail
    ensures here ==> ParseSize(c.header).Some? && ParseSize(c.header).value > 0
    ensures here ==> at + |c.header| + 2 + ParseSize(c.header).value >= USIZE
    ensures !here ==> ValidChunk(c) && b == OnWire(c) + tail && |tail| < |b| && Overflows(tail, at + |OnWire(c)|)
  {
    hide FindSubslice, ParseSize, Header, OnWire, Overflows, ValidChunk;
    OverflowTurn(b, at);
    HeaderOf(b);
    var end := FindSubslice(b, CRLF).value;
    var header, data := b[..end], b[end + 2..];
    var n := ParseSize(header).value;
    here := at + end + 2 + n >= USIZE;
    if here {
      c, tail := Chunk(header, [], []), data;
    } else {
      c, tail := Chunk(header, data[..n], data[n..n + 2]), data[n + 2..];
      SplitData(header, data, n);
      ChunkIsValid(header, data, n);
    }
  }

  lemma {:induction false} OverflowIsOverlong(b: seq<Byte>, at: nat)
    returns (chunks: seq<Chunk>, header: seq<Byte>, rest: seq<Byte>)
    requires Overflows(b, at)
    ensures OverlongAt(b, at, chunks, header, rest)
    decreases |b|
  {
    hide ParseSize, Header, ValidChunk, Overflows;
    var c, tail, here := TakeOverlong(b, at);
    if here {
      chunks, header, rest := [], c.header, tail;
    } else {
      var more, h, after := OverflowIsOverlong(tail, at + |OnWire(c)|);
      chunks, header, rest := [c] + more, h, after;
      assert chunks[1..] == more;
      assert OnWire(c) + (Stream(more, h) + after) == (OnWire(c) + Stream(more, h)) + after;
    }
  }

  lemma ChunkPassed(c: Chunk, tail: seq<Byte>, at: nat)
    requires ValidChunk(c) && at + |OnWire(c)| < USIZE
    ensures Overflows(OnWire(c) + tail, at) <==> Overflows(tail, at + |OnWire(c)|)
  {
    hide FindSubslice, ParseSize, Overflows, Scan, Prepend, Header;
    var after := c.data + c.close + tail;
    HeaderScans(c.header, after);
    WireLength(c, tail);
    hide OnWire;
    TurnOf(c.header + CRLF + after, at);
    DataSkipped(c, tail);
  }

  lemma WireLength(c: Chunk, tail: seq<Byte>)
    ensures OnWire(c) + tail == c.header + CRLF + (c.data + c.close + tail)
    ensures |OnWire(c)| == |c.header| + 2 + |c.data| + |c.close|
  {
    Reassociated(c.header + CRLF, c.data, c.close, tail);
  }

  lemma Reassociated(x: seq<Byte>, y: seq<Byte>, z: seq<Byte>, w: seq<Byte>)
    ensures x + y + z + w == x + (y + z + w)
  {
  }

  lemma DataSkipped(c: Chunk, tail: seq<Byte>)
    requires |c.close| == 2
    ensures var after := c.data + c.close + tail; after[|c.data| + 2..] == tail
  {
  }

  lemma {:induction false} OverlongOverflows(b: seq<Byte>, at: nat, chunks: seq<Chunk>, header: seq<Byte>,
    rest: seq<Byte>)
    requires OverlongAt(b, at, chunks, header, rest) && at + |b| < USIZE
    ensures Overflows(b, at)
    decreases chunks
  {
    hide ParseSize, FindSubslice, Header, Overflows;
    if chunks == [] {
      OverlongHeader(header, rest, at);
    } else {
      var c, more := chunks[0], chunks[1..];
      assert AllValid(more);
      var tail := Stream(more, header) + rest;
      assert b == OnWire(c) + tail;
      OverlongOverflows(tail, at + |OnWire(c)|, more, header, rest);
      ChunkPassed(c, tail, at);
    }
  }

  lemma OverlongHeader(header: seq<Byte>, rest: seq<Byte>, at: nat)
    requires Header(header) && ParseSize(header).Some? && ParseSize(header).value > 0
    requires at + |header| + 2 + ParseSize(header).value >= USIZE
    ensures Overflows(header + CRLF + rest, at)
  {
    HeaderScans(header, rest);
  }

  /** The decoder panics exactly when, after some whole chunks, a header
      announces a size that the cursor cannot be advanced by. */
  lemma PanicsExactly(b: seq<Byte>)
    requires |b| < USIZE
    ensures Outcome(b) == Panicked <==> Overlong(b, 0)
  {
    hide Scan, Overflows, OverlongAt;
    if Overflows(b, 0) {
      var chunks, header, rest := OverflowIsOverlong(b, 0);
    }
    if Overlong(b, 0) {
      var chunks, header, rest :| OverlongAt(b, 0, chunks, header, rest);
      OverlongOverflows(b, 0, chunks, header, rest);
    }
  }

  /** Until the last header is complete, the decoder waits for more. */
  lemma PrefixIsIncomplete(chunks: seq<Chunk>, last: seq<Byte>, k: nat)
    requires AllValid(chunks) && LastHeader(last) && k < |Stream(chunks, last)| < USIZE
    ensures Scan(Stream(chunks, last)[..k]) == Incomplete && Outcome(Stream(chunks, last)[..k]) == Failed
  {
    hide Scan, Overflows, AllValid, LastHeader;
    var s := Stream(chunks, last);
    var p, q := s[..k], s[k..];
    assert s == p + q && s + [] == s;
    StreamScans(chunks, last, []);
    if !Scan(p).Incomplete? {
      AnswersAreFinal(p, q);
    }
    DoneFits(s, 0);
    if Overflows(p, 0) {
      OverflowIsFinal(p, q, 0);
    }
  }

  // ---------------------------------------------------------------------
  // The canonical encoding
  // ---------------------------------------------------------------------

  /** `{:x}`: the chunk-size of section 7.1 of RFC 9112. */
  function HexNumeral(n: nat): (s: string)
    ensures s != "" && Hex.HexText(s)
  {
    if n < 16 then [HexDigit(n)] else HexNumeral(n / 16) + [HexDigit(n % 16)]
  }

  lemma {:induction false} HexNumeralReads(n: nat)
    ensures HexNumber(HexNumeral(n)) == Some(n)
  {
    var s := HexNumeral(n);
    if n >= 16 {
      HexNumeralReads(n / 16);
      assert s[..|s| - 1] == HexNumeral(n / 16);
    } else {
      assert s[..|s| - 1] == "";
      assert HexNumber("") == Some(0);
    }
  }

  lemma {:induction false} HexTextPlain(s: string)
    requires Hex.HexText(s)
    ensures Ascii(s) && FromUtf8(Codes(s)) == Some(s)
    ensures BeforeSemicolon(s) == s && Header(Codes(s))
  {
    if s != "" {
      var tail := s[1..];
      HexTextPlain(tail);
      var b := Codes(s) + CRLF;
      assert Codes(s)[1..] == Codes(tail) && b[1..] == Codes(tail) + CRLF;
      assert b[..2][0] != 13 && b[..2] != CRLF;
      assert FirstChar(Codes(s)) == Some((s[0], 1));
      assert s == [s[0]] + tail;
    } else {
      assert Codes(s) + CRLF == CRLF;
    }
  }

  function SizeHeader(n: nat): seq<Byte> {
    Codes(HexNumeral(n))
  }

  lemma SizeHeaderReads(n: nat)
    requires n < USIZE
    ensures Header(SizeHeader(n)) && ParseSize(SizeHeader(n)) == Some(n)
  {
    var s := HexNumeral(n);
    HexNumeralReads(n);
    HexTextPlain(s);
    hide HexNumber, HexNumeral, FromUtf8, BeforeSemicolon;
    assert TrimStart(s) == s && TrimEnd(s) == s;
  }

  // ---------------------------------------------------------------------
  // What section 7.1 of RFC 9112 would refuse
  // ---------------------------------------------------------------------

  function HexDigits(b: seq<Byte>): (n: nat)
    ensures n <= |b|
  {
    if b != [] && Hex.Nibble(b[0]).Some? then 1 + HexDigits(b[1..]) else 0
  }

  function SkipBlanks(b: seq<Byte>): seq<Byte> {
    if b != [] && b[0] in {9, 32} then SkipBlanks(b[1..]) else b
  }

  /** A size in hexadecimal digits, and if anything follows it, an extension
      that a semicolon opens. */
  predicate ConformingHeader(h: seq<Byte>) {
    var n := HexDigits(h);
    var after := SkipBlanks(h[n..]);
    n > 0 && (n == |h| || (after != [] && after[0] == ';' as int))
  }

  predicate ConformingChunk(c: Chunk) {
    ConformingHeader(c.header) && c.close == CRLF
  }

  predicate Conforming(chunks: seq<Chunk>, last: seq<Byte>) {
    (forall c :: c in chunks ==> ConformingChunk(c)) && ConformingHeader(last)
  }

  /** The decoder that the section describes, up to the last header. */
  function StrictScan(b: seq<Byte>): Scanned
    decreases |b|
  {
    var end := FindSubslice(b, CRLF);
    if end.None? then Incomplete
    else
      var size := ParseSize(b[..end.value]);
      var data := b[end.value + 2..];
      if size.None? || !ConformingHeader(b[..end.value]) then Malformed
      else if size.value == 0 then Done([], data)
      else if size.value + 2 > |data| then Incomplete
      else if data[size.value..size.value + 2] != CRLF then Malformed
      else Prepend(data[..size.value], StrictScan(data[size.value + 2..]))
  }

  lemma StrictChunk(c: Chunk, tail: seq<Byte>)
    requires ValidChunk(c)
    ensures StrictScan(OnWire(c) + tail)
         == if ConformingChunk(c) then Prepend(c.data, StrictScan(tail)) else Malformed
  {
    hide FindSubslice, ParseSize, ConformingHeader;
    var after := c.data + c.close + tail;
    HeaderScans(c.header, after);
    assert OnWire(c) + tail == c.header + CRLF + after;
    var n := |c.data|;
    assert after[..n] == c.data && after[n..n + 2] == c.close && after[n + 2..] == tail;
  }

  lemma StrictLast(h: seq<Byte>, tail: seq<Byte>)
    requires LastHeader(h)
    ensures StrictScan(h + CRLF + tail) == if ConformingHeader(h) then Done([], tail) else Malformed
  {
    hide FindSubslice, ParseSize, ConformingHeader;
    HeaderScans(h, tail);
  }

  lemma {:induction false} StrictStream(chunks: seq<Chunk>, last: seq<Byte>, tail: seq<Byte>)
    requires AllValid(chunks) && LastHeader(last)
    ensures StrictScan(Stream(chunks, last) + tail)
         == if Conforming(chunks, last) then Done(Payload(chunks), tail) else Malformed
  {
    hide StrictScan, ValidChunk, LastHeader, ConformingHeader, ConformingChunk, OnWire;
    if chunks == [] {
      StrictLast(last, tail);
    } else {
      var c, more := chunks[0], chunks[1..];
      StrictStream(more, last, tail);
      StrictChunk(c, Stream(more, last) + tail);
      assert Stream(chunks, last) + tail == OnWire(c) + (Stream(more, last) + tail);
      assert forall x :: x in chunks <==> x == c || x in more;
    }
  }

  /** Of the streams that the decoder accepts, the section allows exactly those
      whose headers conform and whose chunks all end in CRLF; on them the two
      agree. */
  lemma ConformsExactly(b: seq<Byte>, chunks: seq<Chunk>, last: seq<Byte>, rest: seq<Byte>)
    requires StreamOf(chunks, last, rest, b)
    ensures Scan(b) == Done(Payload(chunks), rest)
    ensures StrictScan(b) == if Conforming(chunks, last) then Scan(b) else Malformed
  {
    hide Scan, StrictScan, AllValid, LastHeader, Conforming;
    StreamScans(chunks, last, rest);
    StrictStream(chunks, last, rest);
  }

  /** Streams that the decoder accepts and the section refuses: any two bytes
      may stand where CRLF should. */
  lemma UnclosedAccepted(data: seq<Byte>, close: seq<Byte>)
    requires data != [] && |close| == 2 && close != CRLF
    requires |Stream([Chunk(SizeHeader(|data|), data, close)], SizeHeader(0))| < USIZE
    ensures var b := Stream([Chunk(SizeHeader(|data|), data, close)], SizeHeader(0));
      Outcome(b) == Body(data) && StrictScan(b) == Malformed
  {
    var c, last := Chunk(SizeHeader(|data|), data, close), SizeHeader(0);
    var b := Stream([c], last);
    OneChunk(c, last);
    SizeHeaderReads(|data|);
    SizeHeaderReads(0);
    hide Header, ParseSize, SizeHeader, Scan, StrictScan, Overflows, ConformingHeader, Stream, Payload;
    assert b + [] == b && c in [c] && !ConformingChunk(c);
    ConformsExactly(b, [c], last, []);
    DoneFits(b, 0);
  }

  lemma OneChunk(c: Chunk, last: seq<Byte>)
    ensures Stream([c], last) == OnWire(c) + (last + CRLF) && Payload([c]) == c.data
  {
    assert [c][1..] == [] && c.data + [] == c.data;
  }

  /** The shortest: `1`, CRLF, `A`, `XX`, `0`, CRLF. */
  lemma UnclosedExample()
    ensures var b := [49, 13, 10, 65, 88, 88, 48, 13, 10];
      Outcome(b) == Body([65]) && StrictScan(b) == Malformed
  {
    var c := Chunk(SizeHeader(1), [65], [88, 88]);
    OneDigit(0);
    OneDigit(1);
    OneChunk(c, SizeHeader(0));
    hide SizeHeader, Stream, Scan, StrictScan, Overflows;
    assert OnWire(c) + (SizeHeader(0) + CRLF) == [49, 13, 10, 65, 88, 88, 48, 13, 10];
    UnclosedAccepted([65], [88, 88]);
  }

  /** Another header that the section refuses: `+1`. */
  lemma SignedSizeAccepted()
    ensures ParseSize([43, 49]) == Some(1) && !ConformingHeader([43, 49])
  {
    PlusOneText();
    PlusOneSize();
    hide FromUtf8, FromStrRadix16, Trim, BeforeSemicolon;
  }

  lemma PlusOneText()
    ensures FromUtf8([43, 49]) == Some("+1")
  {
    var h: seq<Byte> := [43, 49];
    HexTextPlain("1");
    assert h[1..] == [49] == Codes("1") && FirstChar(h) == Some(('+', 1));
    assert ['+'] + "1" == "+1";
  }

  lemma PlusOneSize()
    ensures FromStrRadix16(Trim(BeforeSemicolon("+1"))) == Some(1)
  {
    assert BeforeSemicolon("+1") == "+1" by {
      assert "+1"[1..] == "1" && "1"[1..] == "";
    }
    TrimIs("", "+1", "");
    assert "" + "+1" + "" == "+1";
    hide Trim, BeforeSemicolon;
    assert HexNumber("1") == Some(1) by {
      assert "1"[..0] == "" && HexNumber("") == Some(0);
    }
    assert "+1"[1..] == "1";
  }

  lemma OneDigit(n: nat)
    requires n < 10
    ensures SizeHeader(n) == [48 + n]
  {
    assert HexNumeral(n) == [HexDigit(n)];
  }

  /** Such a header: the largest size that parses. */
  lemma LargestSizePanics(rest: seq<Byte>)
    ensures Outcome(SizeHeader(USIZE - 1) + CRLF + rest) == Panicked
  {
    hide Header, ParseSize, SizeHeader, Overflows, Scan;
    SizeHeaderReads(USIZE - 1);
    OverlongHeader(SizeHeader(USIZE - 1), rest, 0);
  }

  /** The encoding of section 7.1 of RFC 9112, without chunk extensions. */
  function Canonical(parts: seq<seq<Byte>>): seq<Chunk> {
    if parts == [] then []
    else [Chunk(SizeHeader(|parts[0]|), parts[0], CRLF)] + Canonical(parts[1..])
  }

  function Encode(parts: seq<seq<Byte>>): seq<Byte> {
    Stream(Canonical(parts), SizeHeader(0))
  }

  lemma {:induction false} CanonicalIsValid(parts: seq<seq<Byte>>)
    requires forall p :: p in parts ==> 0 < |p| < USIZE
    ensures AllValid(Canonical(parts)) && Payload(Canonical(parts)) == Concat(parts)
  {
    if parts != [] {
      hide Header, ParseSize, SizeHeader, Hex.HexText;
      var size, more := SizeHeader(|parts[0]|), Canonical(parts[1..]);
      SizeHeaderReads(|parts[0]|);
      CanonicalIsValid(parts[1..]);
      var first := Chunk(size, parts[0], CRLF);
      assert ValidChunk(first);
      assert Canonical(parts) == [first] + more;
      assert Payload([first] + more) == parts[0] + Payload(more) by {
        assert ([first] + more)[1..] == more;
      }
    }
  }

  lemma {:induction false} LowerHexDigits(s: string)
    requires Hex.HexText(s) && Ascii(s)
    ensures HexDigits(Codes(s)) == |s|
  {
    if s != "" {
      LowerHexDigits(s[1..]);
      assert Codes(s)[1..] == Codes(s[1..]);
    }
  }

  lemma SizeHeaderConforms(n: nat)
    ensures ConformingHeader(SizeHeader(n))
  {
    HexTextPlain(HexNumeral(n));
    LowerHexDigits(HexNumeral(n));
  }

  /** The encoding is one that the section allows. */
  lemma {:induction false} CanonicalConforms(parts: seq<seq<Byte>>)
    ensures Conforming(Canonical(parts), SizeHeader(0))
  {
    hide ConformingHeader, SizeHeader;
    SizeHeaderConforms(0);
    if parts != [] {
      SizeHeaderConforms(|parts[0]|);
      CanonicalConforms(parts[1..]);
      var first, more := Chunk(SizeHeader(|parts[0]|), parts[0], CRLF), Canonical(parts[1..]);
      assert forall c :: c in [first] + more <==> c == first || c in more;
    }
  }

  /** Chunked inversion: decoding the encoding of any list of non-empty parts,
      followed by anything, yields their concatenation; and every proper
      prefix of the encoding is an error that asks for more. */
  lemma ChunkedInversion(parts: seq<seq<Byte>>, trailing: seq<Byte>, k: nat)
    requires forall p :: p in parts ==> 0 < |p| < USIZE
    ensures Scan(Encode(parts) + trailing) == Done(Concat(parts), trailing)
    ensures |Encode(parts) + trailing| < USIZE ==> Outcome(Encode(parts) + trailing) == Body(Concat(parts))
    ensures k < |Encode(parts)| < USIZE ==>
      Scan(Encode(parts)[..k]) == Incomplete && Outcome(Encode(parts)[..k]) == Failed
  {
    hide Scan, Overflows, AllValid, Header, ParseSize, SizeHeader;
    CanonicalIsValid(parts);
    SizeHeaderReads(0);
    StreamScans(Canonical(parts), SizeHeader(0), trailing);
    if |Encode(parts) + trailing| < USIZE {
      DoneFits(Encode(parts) + trailing, 0);
    }
    if k < |Encode(parts)| < USIZE {
      PrefixIsIncomplete(Canonical(parts), SizeHeader(0), k);
    }
  }
}
