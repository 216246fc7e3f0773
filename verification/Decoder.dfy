/** The push-based decoder of archive files, on its uncompressed path: bytes arrive
    in chunks, and come out as the records a one-shot parse would give. */
module Decoder {
  import opened Basics
  import opened Varint
  import opened Framing

  datatype Compression = Plain | Zstd

  const ZSTD_MAGIC: seq<byte> := [0x28, 0xB5, 0x2F, 0xFD]

  /** Consumed bytes past which a scan drops them from its buffer. */
  const COMPACT_THRESHOLD := 1024 * 1024

  /** The outcome of a whole input. `Compressed` hands its bytes to the zstd decoder, which
      is not part of this model. */
  datatype Ending = Completed(truncated: bool, trailingBytes: nat) | Failed(error: Error) | Compressed

  /** What is known from the first four bytes, or from the hint when there are
      fewer. */
  function Sniffed(hint: Option<Compression>, bytes: seq<byte>): Compression {
    if |bytes| >= |ZSTD_MAGIC| then if bytes[..|ZSTD_MAGIC|] == ZSTD_MAGIC then Zstd else Plain
    else if hint.Some? then hint.value else Plain
  }

  /** Records as the sink receives them, numbered from `first`. */
  function Numbered(records: seq<seq<byte>>, first: nat): seq<(nat, seq<byte>)> {
    seq(|records|, i requires 0 <= i < |records| => (first + i, records[i]))
  }

  /** Reading on from what was left gives what the longer string has beyond the
      records already out. */
  lemma FedFurther(before: seq<byte>, chunk: seq<byte>, rest: seq<byte>, out: nat)
    requires Parse(before).error.None? && rest == Parse(before).rest && out == |Parse(before).records|
    ensures var whole, more := Parse(before + chunk), Parse(rest + chunk);
            && whole.error == more.error && whole.rest == more.rest
            && |whole.records| == out + |more.records| && whole.records[out..] == more.records
  {
    ParseGoesOn(before, chunk);
  }

  /** Having split off `done`, what `rest` parses to completes `parsed`. */
  ghost predicate Continues(parsed: Parsed, done: seq<seq<byte>>, rest: seq<byte>) {
    var more := Parse(rest);
    parsed.error == more.error && parsed.rest == more.rest && parsed.records == done + more.records
  }

  lemma OneRecord(parsed: Parsed, done: seq<seq<byte>>, rest: seq<byte>, start: nat, end: nat)
    requires Continues(parsed, done, rest) && start <= end <= |rest|
    requires Read(rest) == Value(end - start, start) && end - start <= MAX_RECORD_LEN
    ensures Continues(parsed, done + [rest[start..end]], rest[end..])
  {
    assert Parse(rest).records == [rest[start..end]] + Parse(rest[end..]).records;
  }

  class RecordDecoder {
    const hint: Option<Compression>
    var compression: Option<Compression>
    var cin: seq<byte>
    var out: seq<byte>
    var outPos: nat
    var bytesIn: nat
    var bytesOut: nat
    var records: nat
    ghost var fed: seq<byte>

    /** Consistent after any pushes that met no error. */
    ghost predicate Valid()
      reads this
    {
      && bytesIn == |fed| && outPos <= |out|
      && (|fed| < |ZSTD_MAGIC| ==> compression.None?)
      && (|fed| >= |ZSTD_MAGIC| ==> compression == Some(Sniffed(hint, fed)))
      && (compression != Some(Plain) ==> cin == fed && out == [] && outPos == 0 && records == 0 && bytesOut == 0)
      && (compression == Some(Plain) ==>
            && cin == [] && bytesOut == |fed|
            && Parse(fed).error.None? && Parse(fed).rest == out[outPos..] && |Parse(fed).records| == records)
    }

    constructor (hint: Option<Compression>)
      ensures Valid() && fed == [] && this.hint == hint
    {
      this.hint := hint;
      compression := None;
      cin, out, outPos, fed := [], [], 0, [];
      bytesIn, bytesOut, records := 0, 0, 0;
    }

    /** On the uncompressed path what comes out is what the parse of all bytes so
        far has beyond what had come out before. */
    method Push(chunk: seq<byte>) returns (sink: seq<(nat, seq<byte>)>, error: Option<Error>)
      requires Valid()
      modifies this
      ensures fed == old(fed) + chunk
      ensures error.None? ==> Valid()
      ensures compression != Some(Plain) ==> sink == [] && error.None?
      ensures compression == Some(Plain) ==> |fed| >= |ZSTD_MAGIC| && Sniffed(hint, fed) == Plain
      ensures compression == Some(Plain) ==>
                && error == Parse(fed).error
                && old(records) <= |Parse(fed).records|
                && sink == Numbered(Parse(fed).records[old(records)..], old(records))
                && records == |Parse(fed).records|
    {
      bytesIn := bytesIn + |chunk|;
      cin := cin + chunk;
      ghost var before, wasPlain, tail, count := fed, compression == Some(Plain), out[outPos..], records;
      fed := fed + chunk;
      if |before| >= |ZSTD_MAGIC| {
        SniffingIsStable(hint, before, chunk);
      }
      DetectCompression(false);
      if wasPlain {
        FedFurther(before, chunk, tail, count);
        assert [] + chunk == chunk;
      } else {
        assert tail + cin == fed;
      }
      sink, error := Pump();
      assert compression == Some(Plain) ==>
               Parse(fed).records[count..] == Parse(tail + if wasPlain then chunk else fed).records;
    }

    /** Move what has arrived to the scan buffer and split records off it. */
    method Pump() returns (sink: seq<(nat, seq<byte>)>, error: Option<Error>)
      requires outPos <= |out|
      modifies this
      ensures compression == old(compression) && fed == old(fed) && bytesIn == old(bytesIn)
      ensures compression != Some(Plain) ==> unchanged(this) && sink == [] && error.None?
      ensures compression == Some(Plain) ==>
                var parsed := Parse(old(out)[old(outPos)..] + old(cin));
                && cin == [] && bytesOut == old(bytesOut) + |old(cin)| && outPos <= |out|
                && error == parsed.error && sink == Numbered(parsed.records, old(records))
                && records == old(records) + |parsed.records|
                && (error.None? ==> out[outPos..] == parsed.rest)
    {
      if compression != Some(Plain) {
        return [], None;
      }
      assert (out + cin)[outPos..] == out[outPos..] + cin;
      out := out + cin;
      bytesOut := bytesOut + |cin|;
      cin := [];
      sink, error := Scan();
    }

    method DetectCompression(finishing: bool)
      modifies this`compression
      ensures compression == if old(compression).Some? then old(compression)
                             else if |cin| >= |ZSTD_MAGIC| || finishing then Some(Sniffed(hint, cin))
                             else None
    {
      if compression.Some? {
        return;
      }
      if |cin| >= |ZSTD_MAGIC| {
        compression := Some(if cin[..|ZSTD_MAGIC|] == ZSTD_MAGIC then Zstd else Plain);
      } else if finishing {
        compression := Some(if hint.Some? then hint.value else Plain);
      }
    }

    /** Split complete records off the scan buffer. */
    method Scan() returns (sink: seq<(nat, seq<byte>)>, error: Option<Error>)
      requires outPos <= |out|
      modifies this`out, this`outPos, this`records
      ensures var parsed := Parse(old(out)[old(outPos)..]);
              && outPos <= |out|
              && error == parsed.error && sink == Numbered(parsed.records, old(records))
              && records == old(records) + |parsed.records|
              && (error.None? ==> out[outPos..] == parsed.rest)
    {
      var found, used;
      found, used, error := Split(out[outPos..]);
      sink := Numbered(found, records);
      records := records + |found|;
      outPos := outPos + used;
      if error.None? && outPos >= COMPACT_THRESHOLD {
        out := out[outPos..];
        outPos := 0;
      }
    }

    /** Signal the end of the file. */
    method Finish() returns (sink: seq<(nat, seq<byte>)>, ending: Ending)
      requires Valid()
      modifies this
      ensures ending == EndingOf(hint, fed) && fed == old(fed)
      ensures old(records) <= |RecordsOf(hint, fed)|
      ensures sink == Numbered(RecordsOf(hint, fed)[old(records)..], old(records))
    {
      DetectCompression(true);
      if compression == Some(Plain) {
        if old(compression).None? {
          assert [] + fed == fed;
        } else {
          RestIsBarren(fed);
          assert out[outPos..] + cin == out[outPos..];
        }
      }
      var error;
      sink, error := Pump();
      if compression != Some(Plain) {
        return sink, Compressed;
      }
      if error.Some? {
        return sink, Failed(error.value);
      }
      var trailing := |out| - outPos;
      return sink, Completed(trailing > 0, trailing);
    }
  }

  /** The loop of `Scan`: the records found, the bytes they took, and the error. */
  method Split(buf: seq<byte>) returns (found: seq<seq<byte>>, used: nat, error: Option<Error>)
    ensures used <= |buf|
    ensures Parse(buf) == Parsed(found, buf[used..], error)
  {
    found, used := [], 0;
    ghost var parsed := Parse(buf);
    var rest := buf;
    while true
      invariant used <= |buf| && rest == buf[used..]
      invariant Continues(parsed, found, rest)
      decreases |rest|
    {
      var v := ReadVarint(rest);
      match v {
        case Incomplete => return found, used, None;
        case Invalid => return found, used, Some(MalformedVarint);
        case Value(len, start) =>
          if len > MAX_RECORD_LEN {
            return found, used, Some(RecordTooLarge(len));
          }
          var end := start + len;
          if |rest| < end {
            return found, used, None; // record not fully arrived yet
          }
          OneRecord(parsed, found, rest, start, end);
          found := found + [rest[start..end]];
          used := used + end;
          rest := rest[end..];
      }
    }
  }

  /** Bytes that follow do not change what four bytes have shown. */
  lemma SniffingIsStable(hint: Option<Compression>, a: seq<byte>, b: seq<byte>)
    requires |a| >= |ZSTD_MAGIC|
    ensures Sniffed(hint, a + b) == Sniffed(hint, a)
  {
    assert (a + b)[..|ZSTD_MAGIC|] == a[..|ZSTD_MAGIC|];
  }

  // --------------------------------------------------------------- one whole file

  /** What a one-shot reading of all the bytes gives. */
  function RecordsOf(hint: Option<Compression>, bytes: seq<byte>): seq<seq<byte>> {
    if Sniffed(hint, bytes) == Zstd then [] else Parse(bytes).records
  }

  function EndingOf(hint: Option<Compression>, bytes: seq<byte>): Ending {
    if Sniffed(hint, bytes) == Zstd then Compressed
    else
      var parsed := Parse(bytes);
      if parsed.error.Some? then Failed(parsed.error.value) else Completed(|parsed.rest| > 0, |parsed.rest|)
  }

  /** Which files are handed to the zstd decoder: those that begin as zstd frames do,
      and shorter ones that are said to be. */
  lemma SniffedMeans(hint: Option<Compression>, bytes: seq<byte>)
    ensures Sniffed(hint, bytes) == Zstd <==>
              if |bytes| < 4 then hint == Some(Zstd)
              else bytes[0] == 0x28 && bytes[1] == 0xB5 && bytes[2] == 0x2F && bytes[3] == 0xFD
  {
    if |bytes| >= 4 {
      assert bytes[..4] == [bytes[0], bytes[1], bytes[2], bytes[3]];
    }
  }

  /** How the others end: with the error that stopped the reading, or completed and
      called truncated just when bytes are left after the last record. */
  lemma EndingMeans(hint: Option<Compression>, bytes: seq<byte>)
    ensures var rest := Parse(bytes).rest;
            match EndingOf(hint, bytes)
            case Compressed => Sniffed(hint, bytes) == Zstd
            case Failed(MalformedVarint) => Sniffed(hint, bytes) == Plain && Overflows(rest)
            case Failed(RecordTooLarge(len)) =>
              Sniffed(hint, bytes) == Plain && len > MAX_RECORD_LEN && exists size: nat :: Announces(rest, len, size)
            case Completed(truncated, trailing) =>
              && Sniffed(hint, bytes) == Plain && Parse(bytes).error == None
              && trailing == |rest| && (truncated <==> rest != [])
  {
    ErrorMeans(bytes);
  }

  function Joined(chunks: seq<seq<byte>>): seq<byte> {
    if chunks == [] then [] else Joined(chunks[..|chunks| - 1]) + chunks[|chunks| - 1]
  }

  /** Push every chunk, stopping at the first error, and finish. Whatever the
      chunks, the records and the ending are those of their concatenation. */
  method Decode(hint: Option<Compression>, chunks: seq<seq<byte>>) returns (sink: seq<(nat, seq<byte>)>, ending: Ending)
    ensures sink == Numbered(RecordsOf(hint, Joined(chunks)), 0)
    ensures ending == EndingOf(hint, Joined(chunks))
  {
    var decoder := new RecordDecoder(hint);
    var error;
    sink, error := PushAll(decoder, chunks);
    if error.Some? {
      return sink, Failed(error.value);
    }
    ghost var before := decoder.records;
    var more;
    more, ending := decoder.Finish();
    NumberedSplit(RecordsOf(hint, decoder.fed), before);
    sink := sink + more;
  }

  method PushAll(decoder: RecordDecoder, chunks: seq<seq<byte>>)
    returns (sink: seq<(nat, seq<byte>)>, error: Option<Error>)
    requires decoder.Valid() && decoder.fed == []
    modifies decoder
    ensures error.None? ==>
              && decoder.Valid() && decoder.fed == Joined(chunks)
              && sink == if decoder.compression == Some(Plain) then Numbered(Parse(decoder.fed).records, 0) else []
    ensures error.Some? ==>
              && sink == Numbered(RecordsOf(decoder.hint, Joined(chunks)), 0)
              && EndingOf(decoder.hint, Joined(chunks)) == Failed(error.value)
  {
    sink := [];
    for i := 0 to |chunks|
      invariant decoder.Valid() && decoder.fed == Joined(chunks[..i])
      invariant sink == if decoder.compression == Some(Plain) then Numbered(Parse(decoder.fed).records, 0) else []
    {
      ghost var before, known := decoder.records, decoder.fed;
      assert chunks[..i + 1][..i] == chunks[..i];
      var more;
      more, error := decoder.Push(chunks[i]);
      if decoder.compression == Some(Plain) {
        PushedOn(known, chunks[i], before, sink, more);
      }
      sink := sink + more;
      if error.Some? {
        ErrorEndsIt(decoder.hint, chunks, i + 1, error.value);
        return;
      }
    }
    assert chunks[..|chunks|] == chunks;
    error := None;
  }

  /** What a push adds completes what had come out before. */
  lemma PushedOn(known: seq<byte>, chunk: seq<byte>, out: nat, sink: seq<(nat, seq<byte>)>, more: seq<(nat, seq<byte>)>)
    requires if out == 0 then sink == []
             else Parse(known).error.None? && out == |Parse(known).records| && sink == Numbered(Parse(known).records, 0)
    requires out <= |Parse(known + chunk).records| && more == Numbered(Parse(known + chunk).records[out..], out)
    ensures sink + more == Numbered(Parse(known + chunk).records, 0)
  {
    ParseGoesOn(known, chunk);
    NumberedSplit(Parse(known + chunk).records, out);
  }

  lemma NumberedSplit(records: seq<seq<byte>>, at: nat)
    requires at <= |records|
    ensures Numbered(records, 0) == Numbered(records[..at], 0) + Numbered(records[at..], at)
  {
  }

  /** An error met among the first chunks is the error of the whole file. */
  lemma {:induction false} FirstErrorStays(hint: Option<Compression>, chunks: seq<seq<byte>>, n: nat)
    requires n <= |chunks| && Parse(Joined(chunks[..n])).error.Some?
    requires |Joined(chunks[..n])| >= |ZSTD_MAGIC| && Sniffed(hint, Joined(chunks[..n])) == Plain
    ensures Sniffed(hint, Joined(chunks)) == Plain
    ensures Parse(Joined(chunks)).error == Parse(Joined(chunks[..n])).error
    ensures Parse(Joined(chunks)).records == Parse(Joined(chunks[..n])).records
    decreases |chunks|
  {
    if n == |chunks| {
      assert chunks[..n] == chunks;
    } else {
      var front, last := chunks[..|chunks| - 1], chunks[|chunks| - 1];
      assert front[..n] == chunks[..n];
      FirstErrorStays(hint, front, n);
      JoinedGrows(chunks, n);
      SniffingIsStable(hint, Joined(chunks[..n]), Joined(chunks)[|Joined(chunks[..n])|..]);
      assert Joined(chunks) == Joined(chunks[..n]) + Joined(chunks)[|Joined(chunks[..n])|..];
      ParseGoesOn(Joined(front), last);
    }
  }

  lemma {:induction false} ErrorEndsIt(hint: Option<Compression>, chunks: seq<seq<byte>>, n: nat, error: Error)
    requires n <= |chunks| && Parse(Joined(chunks[..n])).error == Some(error)
    requires |Joined(chunks[..n])| >= |ZSTD_MAGIC| && Sniffed(hint, Joined(chunks[..n])) == Plain
    ensures RecordsOf(hint, Joined(chunks)) == Parse(Joined(chunks[..n])).records
    ensures EndingOf(hint, Joined(chunks)) == Failed(error)
  {
    FirstErrorStays(hint, chunks, n);
  }

  lemma {:induction false} JoinedGrows(chunks: seq<seq<byte>>, n: nat)
    requires n <= |chunks|
    ensures Joined(chunks[..n]) <= Joined(chunks)
    decreases |chunks|
  {
    if n < |chunks| {
      var front := chunks[..|chunks| - 1];
      assert front[..n] == chunks[..n];
      JoinedGrows(front, n);
    } else {
      assert chunks[..n] == chunks;
    }
  }

  /** Framed payloads, cut anywhere and pushed in any chunks, come out as exactly
      those wholly before the cut, numbered from zero; what is left of the last
      one is reported, and the file called truncated just when there is any. */
  method DecodeFramed(hint: Option<Compression>, payloads: seq<seq<byte>>, cut: nat, chunks: seq<seq<byte>>)
    returns (sink: seq<(nat, seq<byte>)>, ending: Ending)
    requires cut <= |Frame(payloads)| && Joined(chunks) == Frame(payloads)[..cut]
    requires forall i | 0 <= i < |payloads| :: |payloads[i]| <= MAX_RECORD_LEN
    requires Sniffed(hint, Joined(chunks)) == Plain
    ensures var k := Whole(payloads, cut);
            && |Frame(payloads[..k])| <= cut
            && |sink| == k && (forall i | 0 <= i < k :: sink[i] == (i, payloads[i]))
            && ending == Completed(cut > |Frame(payloads[..k])|, cut - |Frame(payloads[..k])|)
  {
    CutFramesParse(payloads, cut);
    sink, ending := Decode(hint, chunks);
  }
}
