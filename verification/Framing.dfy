/** Length-delimited records: the one-shot parse of a byte string, and what
    cutting it does. */
module Framing {
  import opened Basics
  import opened Varint

  /** Record lengths above this are refused. */
  const MAX_RECORD_LEN := 64 * 1024 * 1024

  datatype Error = MalformedVarint | RecordTooLarge(len: nat)

  /** The whole records of a byte string, what is left after the last of them, and
      the error, if any, that ended the reading there. */
  datatype Parsed = Parsed(records: seq<seq<byte>>, rest: seq<byte>, error: Option<Error>)

  function Parse(s: seq<byte>): Parsed {
    match Read(s)
    case Incomplete => Parsed([], s, None)
    case Invalid => Parsed([], s, Some(MalformedVarint))
    case Value(len, n) =>
      if len > MAX_RECORD_LEN then Parsed([], s, Some(RecordTooLarge(len)))
      else if |s| < n + len then Parsed([], s, None)
      else
        var more := Parse(s[n + len..]);
        more.(records := [s[n..n + len]] + more.records)
  }

  /** Whether a whole record comes first. */
  predicate Complete(s: seq<byte>) {
    var head := Read(s);
    head.Value? && head.value <= MAX_RECORD_LEN && |s| >= head.size + head.value
  }

  function WithFirst(record: seq<byte>, p: Parsed): Parsed {
    p.(records := [record] + p.records)
  }

  lemma ParseTakesOne(s: seq<byte>, size: nat, end: nat)
    requires Complete(s) && size == Read(s).size && end == size + Read(s).value
    ensures Parse(s) == WithFirst(s[size..end], Parse(s[end..]))
  {
  }

  lemma ParseStalls(a: seq<byte>, b: seq<byte>)
    requires !Complete(a)
    ensures Parse(a).records == [] && Parse(a).rest == a
    ensures Parse(a).error.Some? ==> Parse(a + b).records == [] && Parse(a + b).error == Parse(a).error
  {
    ReadIsStable(a, b, 0, 0);
  }

  lemma RecordsJoin(record: seq<byte>, first: Parsed, second: Parsed)
    ensures second.(records := WithFirst(record, first).records + second.records)
         == WithFirst(record, second.(records := first.records + second.records))
  {
    assert [record] + (first.records + second.records) == ([record] + first.records) + second.records;
  }

  /** An error is where it was however many bytes follow; otherwise reading goes
      on from what was left. */
  lemma {:induction false} ParseGoesOn(a: seq<byte>, b: seq<byte>)
    ensures var first, whole := Parse(a), Parse(a + b);
            if first.error.Some? then whole.error == first.error && whole.records == first.records
            else
              var second := Parse(first.rest + b);
              whole == second.(records := first.records + second.records)
    decreases |a|
  {
    if Complete(a) {
      ReadIsStable(a, b, 0, 0);
      var size, end := Read(a).size, Read(a).size + Read(a).value;
      assert (a + b)[end..] == a[end..] + b && (a + b)[size..end] == a[size..end];
      ParseTakesOne(a, size, end);
      ParseTakesOne(a + b, size, end);
      ParseGoesOn(a[end..], b);
      RecordsJoin(a[size..end], Parse(a[end..]), Parse(Parse(a[end..]).rest + b));
    } else {
      ParseStalls(a, b);
    }
  }

  /** What is left of a string is read no further. */
  lemma {:induction false} RestIsBarren(s: seq<byte>)
    requires Parse(s).error.None?
    ensures Parse(Parse(s).rest) == Parsed([], Parse(s).rest, None)
    decreases |s|
  {
    var head := Read(s);
    if head.Value? && |s| >= head.size + head.value {
      RestIsBarren(s[head.size + head.value..]);
    }
  }

  // ------------------------------------------------------------------ framing

  function FrameOne(payload: seq<byte>): (frame: seq<byte>)
    ensures |frame| > |payload|
  {
    Encode(|payload|) + payload
  }

  function Frame(payloads: seq<seq<byte>>): seq<byte> {
    if payloads == [] then [] else FrameOne(payloads[0]) + Frame(payloads[1..])
  }

  /** How many payloads lie wholly before the cut. */
  function Whole(payloads: seq<seq<byte>>, cut: nat): (k: nat)
    ensures k <= |payloads|
  {
    if payloads == [] || cut < |FrameOne(payloads[0])| then 0
    else 1 + Whole(payloads[1..], cut - |FrameOne(payloads[0])|)
  }

  /** They are the longest run of payloads whose frames end by the cut. */
  lemma {:induction false} WholeMeans(payloads: seq<seq<byte>>, cut: nat)
    ensures var k := Whole(payloads, cut);
            && |Frame(payloads[..k])| <= cut
            && (k < |payloads| ==> cut < |Frame(payloads[..k + 1])|)
            && Frame(payloads[..k]) <= Frame(payloads)
  {
    if payloads != [] && cut >= |FrameOne(payloads[0])| {
      WholeMeans(payloads[1..], cut - |FrameOne(payloads[0])|);
      var k := Whole(payloads, cut);
      assert payloads[..k][1..] == payloads[1..][..k - 1];
      if k < |payloads| {
        assert payloads[..k + 1][1..] == payloads[1..][..k];
      }
    } else if payloads != [] {
      assert payloads[..1][1..] == [];
      assert FrameOne(payloads[0]) + Frame([]) == FrameOne(payloads[0]);
    }
  }

  lemma PartialFrame(payload: seq<byte>, cut: nat)
    requires |payload| <= MAX_RECORD_LEN && cut < |FrameOne(payload)|
    ensures var s := FrameOne(payload)[..cut]; Parse(s) == Parsed([], s, None)
  {
    var code := Encode(|payload|);
    if cut < |code| {
      VarintRoundTrip(|payload|, []);
      assert FrameOne(payload)[..cut] == code[..cut];
    } else {
      VarintRoundTrip(|payload|, payload[..cut - |code|]);
      assert FrameOne(payload)[..cut] == code + payload[..cut - |code|];
    }
  }

  lemma WholeFrame(payload: seq<byte>, rest: seq<byte>)
    requires |payload| <= MAX_RECORD_LEN
    ensures Parse(FrameOne(payload) + rest) == WithFirst(payload, Parse(rest))
  {
    var code := Encode(|payload|);
    var s := FrameOne(payload) + rest;
    VarintRoundTrip(|payload|, payload + rest);
    assert s == code + (payload + rest);
    assert s[|code|..|code| + |payload|] == payload;
    assert s[|code| + |payload|..] == rest;
  }

  lemma SliceAcross(first: seq<byte>, rest: seq<byte>, used: nat, cut: nat)
    requires |first| + used <= cut <= |first| + |rest|
    ensures (first + rest)[..cut] == first + rest[..cut - |first|]
    ensures (first + rest)[|first| + used..cut] == rest[used..cut - |first|]
  {
  }

  lemma CutAcross(first: seq<byte>, rest: seq<byte>, cut: nat)
    requires |first| <= cut <= |first| + |rest|
    ensures (first + rest)[..cut] == first + rest[..cut - |first|]
  {
  }

  lemma TakeFirst(payloads: seq<seq<byte>>, k: nat)
    requires 0 < k <= |payloads|
    ensures payloads[..k] == [payloads[0]] + payloads[1..][..k - 1]
  {
  }

  lemma FrameOfFirst(payloads: seq<seq<byte>>, k: nat)
    requires 0 < k <= |payloads|
    ensures Frame(payloads[..k]) == FrameOne(payloads[0]) + Frame(payloads[1..][..k - 1])
  {
    assert payloads[..k][1..] == payloads[1..][..k - 1];
  }

  /** What the cut leaves of the first payload that is not wholly before it. */
  function Left(payloads: seq<seq<byte>>, cut: nat): seq<byte>
    requires cut <= |Frame(payloads)|
  {
    if payloads == [] || cut < |FrameOne(payloads[0])| then Frame(payloads)[..cut]
    else Left(payloads[1..], cut - |FrameOne(payloads[0])|)
  }

  /** It is the remainder after the last whole payload. */
  lemma {:induction false} LeftIsRemainder(payloads: seq<seq<byte>>, cut: nat)
    requires cut <= |Frame(payloads)|
    ensures var end := |Frame(payloads[..Whole(payloads, cut)])|;
            end <= cut && Left(payloads, cut) == Frame(payloads)[end..cut]
  {
    if payloads != [] && cut >= |FrameOne(payloads[0])| {
      var first, tail, k := FrameOne(payloads[0]), payloads[1..], Whole(payloads, cut);
      LeftIsRemainder(tail, cut - |first|);
      FrameOfFirst(payloads, k);
      SliceAcross(first, Frame(tail), |Frame(tail[..k - 1])|, cut);
    }
  }

  lemma FirstIsCut(payloads: seq<seq<byte>>, cut: nat)
    requires payloads != [] && |payloads[0]| <= MAX_RECORD_LEN && cut < |FrameOne(payloads[0])|
    ensures cut <= |Frame(payloads)| && Parse(Frame(payloads)[..cut]) == Parsed([], Frame(payloads)[..cut], None)
  {
    PartialFrame(payloads[0], cut);
    assert Frame(payloads)[..cut] == FrameOne(payloads[0])[..cut];
  }

  /** Cut anywhere, framed payloads parse to exactly those wholly before the cut,
      and what is left of the next is left over. */
  lemma {:induction false} CutFramesRead(payloads: seq<seq<byte>>, cut: nat)
    requires cut <= |Frame(payloads)|
    requires forall i | 0 <= i < |payloads| :: |payloads[i]| <= MAX_RECORD_LEN
    ensures Parse(Frame(payloads)[..cut]) == Parsed(payloads[..Whole(payloads, cut)], Left(payloads, cut), None)
  {
    if payloads != [] && cut < |FrameOne(payloads[0])| {
      FirstIsCut(payloads, cut);
    } else if payloads != [] {
      var first, tail, k := FrameOne(payloads[0]), payloads[1..], Whole(payloads, cut);
      CutFramesRead(tail, cut - |first|);
      WholeFrame(payloads[0], Frame(tail)[..cut - |first|]);
      CutAcross(first, Frame(tail), cut);
      TakeFirst(payloads, k);
    }
  }

  /** Cut anywhere, framed payloads parse to exactly those wholly before the cut,
      with the remainder after the last of them left over. */
  lemma CutFramesParse(payloads: seq<seq<byte>>, cut: nat)
    requires cut <= |Frame(payloads)|
    requires forall i | 0 <= i < |payloads| :: |payloads[i]| <= MAX_RECORD_LEN
    ensures var k := Whole(payloads, cut);
            && |Frame(payloads[..k])| <= cut
            && Parse(Frame(payloads)[..cut])
            == Parsed(payloads[..k], Frame(payloads)[|Frame(payloads[..k])|..cut], None)
  {
    CutFramesRead(payloads, cut);
    LeftIsRemainder(payloads, cut);
  }

  // ------------------------------------------------------------------ the errors

  /** A length is there, in bytes that end by the tenth. */
  predicate Announces(s: seq<byte>, len: nat, size: nat) {
    && 0 < size <= Min(|s|, 10) && GoesOn(s, size - 1) && s[size - 1] < 128
    && (size == 10 ==> s[9] <= 1)
    && len == Placed(s[..size])
  }

  lemma EndsNoLater(s: seq<byte>, end: nat, size: nat)
    requires 0 < end <= |s| && s[end - 1] < 128 && size > 0 && GoesOn(s, size - 1)
    ensures size <= end
  {
  }

  lemma AnnouncesIsRead(s: seq<byte>, len: nat, size: nat)
    ensures Announces(s, len, size) <==> Read(s) == Value(len, size)
  {
    ReadMeans(s);
    if Announces(s, len, size) && Read(s).Value? {
      var n := Read(s).size;
      EndsNoLater(s, n, size);
      EndsNoLater(s, size, n);
    }
  }

  /** Which remainder ends the reading with which error, or with none: a length that
      64 bits cannot hold, a length past the limit, or less than a whole record. */
  lemma {:induction false} ErrorMeans(s: seq<byte>)
    ensures var p := Parse(s);
            && (p.error == Some(MalformedVarint) <==> Overflows(p.rest))
            && (forall len: nat :: p.error == Some(RecordTooLarge(len)) <==>
                  len > MAX_RECORD_LEN && exists size: nat :: Announces(p.rest, len, size))
            && (p.error == None <==>
                  (|p.rest| < 10 && GoesOn(p.rest, |p.rest|))
                  || exists len: nat, size: nat ::
                    Announces(p.rest, len, size) && len <= MAX_RECORD_LEN && |p.rest| < size + len)
    decreases |s|
  {
    if Complete(s) {
      var head := Read(s);
      ParseTakesOne(s, head.size, head.size + head.value);
      ErrorMeans(s[head.size + head.value..]);
    } else {
      StalledMeans(s);
    }
  }

  lemma StalledMeans(s: seq<byte>)
    requires !Complete(s)
    ensures Parse(s).records == [] && Parse(s).rest == s
    ensures Parse(s).error == Some(MalformedVarint) <==> Overflows(s)
    ensures forall len: nat :: Parse(s).error == Some(RecordTooLarge(len)) <==>
              len > MAX_RECORD_LEN && exists size: nat :: Announces(s, len, size)
    ensures Parse(s).error == None <==>
              (|s| < 10 && GoesOn(s, |s|))
              || exists len: nat, size: nat :: Announces(s, len, size) && len <= MAX_RECORD_LEN && |s| < size + len
  {
    ReadMeans(s);
    forall len: nat, size: nat ensures Announces(s, len, size) <==> Read(s) == Value(len, size) {
      AnnouncesIsRead(s, len, size);
    }
  }

  /** Framed payloads with something wrong after them: the payloads come out, and
      the error is that of what follows. */
  lemma {:induction false} FramesThenError(payloads: seq<seq<byte>>, tail: seq<byte>)
    requires forall i | 0 <= i < |payloads| :: |payloads[i]| <= MAX_RECORD_LEN
    requires !Complete(tail)
    ensures Parse(Frame(payloads) + tail) == Parsed(payloads, tail, Parse(tail).error)
  {
    if payloads == [] {
      assert Frame(payloads) + tail == tail;
      ParseStalls(tail, []);
    } else {
      FramesThenError(payloads[1..], tail);
      WholeFrame(payloads[0], Frame(payloads[1..]) + tail);
      assert Frame(payloads) + tail == FrameOne(payloads[0]) + (Frame(payloads[1..]) + tail);
    }
  }
}
