/** The reader goroutine of processFile (handbraked.go:69-84): it chunks the
    transcoder's standard output into one reused 1024-byte buffer and, after every
    non-empty read, sends the leftmost match of the pattern \d+\.\d+ found
    anywhere in the whole buffer. The text-to-float conversion is not modelled:
    a progress value is the matched text. */
module Progress {
  import opened Options

  newtype byte = x: int | 0 <= x < 256

  /** Size of the reused read buffer (handbraked.go:70). */
  const BufferSize: nat := 1024

  const Dot: byte := 46

  /** The class \d of Go's regexp package: ASCII digits only. */
  predicate IsDigit(b: byte) { 48 <= b <= 57 }

  /** `s[p..e]` chunks digits, then the '.' at `d`, then digits. */
  ghost predicate DotAt(s: seq<byte>, p: int, e: int, d: int)
  {
    0 <= p < d && d + 1 < e <= |s| && s[d] == Dot &&
    forall k :: p <= k < e && k != d ==> IsDigit(s[k])
  }

  /** `s[p..e]` is a match of \d+\.\d+. */
  ghost predicate IsMatch(s: seq<byte>, p: int, e: int)
  {
    exists d :: DotAt(s, p, e, d)
  }

  /** The match regexp.FindString reports: the leftmost start, and from there the
      longest match. */
  ghost predicate IsLeftmostLongest(s: seq<byte>, p: int, e: int)
  {
    IsMatch(s, p, e) &&
    (forall p', e' :: 0 <= p' < p ==> !IsMatch(s, p', e')) &&
    (forall e' :: e < e' ==> !IsMatch(s, p, e'))
  }

  /** The end of the run of digits that starts at `i`. */
  function RunEnd(s: seq<byte>, i: nat): (j: nat)
    requires i <= |s|
    ensures i <= j <= |s|
    ensures forall k :: i <= k < j ==> IsDigit(s[k])
    ensures j == |s| || !IsDigit(s[j])
    decreases |s| - i
  {
    if i < |s| && IsDigit(s[i]) then RunEnd(s, i + 1) else i
  }

  /** The greedy attempt at position `p`: all digits, a '.', all digits; the end of
      the match, if there is one. */
  function MatchAt(s: seq<byte>, p: nat): (r: Option<nat>)
    requires p <= |s|
    ensures r.Some? ==> p + 3 <= r.value <= |s|
  {
    var d := RunEnd(s, p);
    if p < d < |s| && s[d] == Dot then
      var e := RunEnd(s, d + 1);
      if d + 1 < e then Some(e) else None
    else None
  }

  /** Tries the start positions from `p` on, left to right. */
  function FindFrom(s: seq<byte>, p: nat): (r: Option<(nat, nat)>)
    requires p <= |s|
    ensures r.Some? ==> p <= r.value.0 && r.value.0 + 3 <= r.value.1 <= |s|
    decreases |s| - p
  {
    if p == |s| then None
    else match MatchAt(s, p)
      case Some(e) => Some((p, e))
      case None => FindFrom(s, p + 1)
  }

  /** regexp.FindString for \d+\.\d+, as a position range. */
  function FindMatch(s: seq<byte>): (r: Option<(nat, nat)>)
    ensures r.Some? ==> r.value.0 + 3 <= r.value.1 <= |s|
  {
    FindFrom(s, 0)
  }

  /** regexp.FindString for \d+\.\d+: the matched text, with None for "". */
  function FindProgress(s: seq<byte>): (r: Option<seq<byte>>)
    ensures r.Some? ==> 3 <= |r.value| <= |s|
  {
    match FindMatch(s)
    case Some((p, e)) => Some(s[p..e])
    case None => None
  }

  /** The greedy attempt at `p` succeeds exactly when some match starts at `p`,
      and then it is the longest one. */
  lemma {:induction false} MatchAtIsLongest(s: seq<byte>, p: nat)
    requires p <= |s|
    ensures MatchAt(s, p).Some? ==> IsMatch(s, p, MatchAt(s, p).value)
    ensures MatchAt(s, p).Some? ==> forall e' :: MatchAt(s, p).value < e' ==> !IsMatch(s, p, e')
    ensures MatchAt(s, p).None? ==> forall e :: !IsMatch(s, p, e)
  {
    var d := RunEnd(s, p);
    forall e, d' | DotAt(s, p, e, d') ensures d' == d && e <= RunEnd(s, d + 1) {
      assert !IsDigit(s[d']);
      assert d' <= d;
      assert d <= d';
      var e1 := RunEnd(s, d + 1);
      assert e <= e1;
    }
    if MatchAt(s, p).Some? {
      assert DotAt(s, p, MatchAt(s, p).value, d);
    }
  }

  lemma {:induction false} FindFromIsLeftmost(s: seq<byte>, p: nat)
    requires p <= |s|
    ensures FindFrom(s, p).Some? ==>
      var (q, e) := FindFrom(s, p).value;
      p <= q && IsMatch(s, q, e) && (forall e' :: e < e' ==> !IsMatch(s, q, e')) &&
      forall p', e' :: p <= p' < q ==> !IsMatch(s, p', e')
    ensures FindFrom(s, p).None? ==> forall p', e' :: p <= p' ==> !IsMatch(s, p', e')
    decreases |s| - p
  {
    if p == |s| {
      forall p', e', d | p <= p' ensures !DotAt(s, p', e', d) {
      }
    } else {
      MatchAtIsLongest(s, p);
      if MatchAt(s, p).None? {
        FindFromIsLeftmost(s, p + 1);
      }
    }
  }

  /** FindMatch reports the leftmost-longest match when there is one, and None
      exactly when the text holds no match at all. */
  lemma {:induction false} FindMatchIsLeftmostLongest(s: seq<byte>)
    ensures FindMatch(s).Some? ==> IsLeftmostLongest(s, FindMatch(s).value.0, FindMatch(s).value.1)
    ensures FindMatch(s).None? <==> forall p, e :: !IsMatch(s, p, e)
  {
    FindFromIsLeftmost(s, 0);
    if FindMatch(s).None? {
      forall p, e, d ensures !DotAt(s, p, e, d) {
        assert 0 <= p ==> !IsMatch(s, p, e);
      }
    }
  }

  /** In the reported match both runs of digits are maximal: no digit touches it
      on either side. */
  lemma {:induction false} LeftmostLongestIsMaximal(s: seq<byte>, p: int, e: int)
    requires IsLeftmostLongest(s, p, e)
    ensures 0 <= p < e <= |s|
    ensures p == 0 || !IsDigit(s[p - 1])
    ensures e == |s| || !IsDigit(s[e])
  {
    var d :| DotAt(s, p, e, d);
    assert p > 0 && IsDigit(s[p - 1]) ==> DotAt(s, p - 1, e, d) && IsMatch(s, p - 1, e);
    assert e < |s| && IsDigit(s[e]) ==> DotAt(s, p, e + 1, d) && IsMatch(s, p, e + 1);
  }

  /** The progress text: it is present in the buffer and has the shape of the pattern. */
  lemma {:induction false} FindProgressIsMatchText(s: seq<byte>)
    ensures FindProgress(s).Some? ==> exists p, e :: IsLeftmostLongest(s, p, e) && FindProgress(s).value == s[p..e]
    ensures FindProgress(s).None? <==> forall p, e :: !IsMatch(s, p, e)
  {
    FindMatchIsLeftmostLongest(s);
    if FindMatch(s).Some? {
      var (p, e) := FindMatch(s).value;
      LeftmostLongestIsMaximal(s, p, e);
      assert IsLeftmostLongest(s, p, e) && FindProgress(s).value == s[p..e];
    }
  }

  /** One call of stdout.Read(b): `data` are the l bytes read, `failed` says that
      err is not nil. */
  datatype Chunk = Chunk(data: seq<byte>, failed: bool)

  /** A read fits the buffer when it returns at most 1024 bytes. */
  predicate FitsBuffer(chunks: seq<Chunk>)
  {
    forall k :: 0 <= k < |chunks| ==> |chunks[k].data| <= BufferSize
  }

  /** The loop condition `l > 0 || err == nil` (handbraked.go:75). */
  predicate Continues(c: Chunk) { |c.data| > 0 || !c.failed }

  /** A read overwrites the first l bytes of the buffer and keeps the rest. */
  function Fill(buf: seq<byte>, data: seq<byte>): (r: seq<byte>)
    requires |data| <= |buf|
    ensures |r| == |buf|
    ensures r[..|data|] == data && r[|data|..] == buf[|data|..]
  {
    data + buf[|data|..]
  }

  /** The fresh buffer of make([]byte, 1024). */
  function ZeroBuffer(): (r: seq<byte>)
    ensures |r| == BufferSize && forall k :: 0 <= k < |r| ==> r[k] == 0
  {
    seq(BufferSize, _ => 0)
  }

  /** What a match contributes to the channel: its text, or nothing. */
  function Emitted(m: Option<seq<byte>>): (r: seq<seq<byte>>)
    ensures |r| <= 1
  {
    if m.Some? then [m.value] else []
  }

  /** The progress text looked for after one read: a match in the whole refreshed
      buffer, and only when the read returned bytes. */
  function AfterRead(b: seq<byte>, c: Chunk): (r: Option<seq<byte>>)
    ensures |c.data| == 0 ==> r.None?
  {
    if |c.data| > 0 then FindProgress(b) else None
  }

  /** What the reader sends on the channel, given the buffer before the next read
      and the results of the remaining reads. */
  function Sent(buf: seq<byte>, chunks: seq<Chunk>): (r: seq<seq<byte>>)
    requires |buf| == BufferSize && FitsBuffer(chunks)
    ensures |r| <= |chunks|
    decreases |chunks|
  {
    if chunks == [] || !Continues(chunks[0]) then []
    else
      var b := Fill(buf, chunks[0].data);
      Emitted(AfterRead(b, chunks[0])) + Sent(b, chunks[1..])
  }

  lemma {:induction false} SentStep(buf: seq<byte>, chunks: seq<Chunk>, i: nat)
    requires |buf| == BufferSize && FitsBuffer(chunks)
    requires i < |chunks| && Continues(chunks[i])
    ensures FitsBuffer(chunks[i..]) && FitsBuffer(chunks[i + 1..])
    ensures var b := Fill(buf, chunks[i].data);
      Sent(buf, chunks[i..]) == Emitted(AfterRead(b, chunks[i])) + Sent(b, chunks[i + 1..])
  {
    assert FitsBuffer(chunks[i..]);
    assert chunks[i..][1..] == chunks[i + 1..];
  }

  /** One turn of the read loop keeps "sent so far, then what the rest will send"
      equal to the whole. */
  lemma {:induction false} SentAdvance(sent: seq<seq<byte>>, m: Option<seq<byte>>, before: seq<byte>, b: seq<byte>,
                    chunks: seq<Chunk>, i: nat, total: seq<seq<byte>>)
    requires |before| == BufferSize && FitsBuffer(chunks)
    requires i < |chunks| && Continues(chunks[i])
    requires sent + Sent(before, chunks[i..]) == total
    requires b == Fill(before, chunks[i].data) && m == AfterRead(b, chunks[i])
    ensures FitsBuffer(chunks[i + 1..])
    ensures (sent + Emitted(m)) + Sent(b, chunks[i + 1..]) == total
  {
    SentStep(before, chunks, i);
    assert Sent(before, chunks[i..]) == Emitted(m) + Sent(b, chunks[i + 1..]);
  }

  /** The reader goroutine: a read loop over the one reused buffer. */
  method ReadProgress(chunks: seq<Chunk>) returns (sent: seq<seq<byte>>)
    requires FitsBuffer(chunks)
    ensures sent == Sent(ZeroBuffer(), chunks)
  {
    var b := new byte[BufferSize](_ => 0);
    assert b[..] == ZeroBuffer();
    sent := [];
    var i := 0;
    ghost var total := Sent(ZeroBuffer(), chunks);
    assert chunks[i..] == chunks;
    while i < |chunks| && Continues(chunks[i])
      invariant 0 <= i <= |chunks| && b.Length == BufferSize
      invariant FitsBuffer(chunks[i..])
      invariant sent + Sent(b[..], chunks[i..]) == total
    {
      var data := chunks[i].data;
      ghost var before := b[..];
      forall k | 0 <= k < |data| {
        b[k] := data[k];
      }
      assert b[..] == Fill(before, data);
      var m: Option<seq<byte>> := None;
      if |data| > 0 {
        m := FindProgress(b[..]);
      }
      SentAdvance(sent, m, before, b[..], chunks, i, total);
      sent := sent + Emitted(m);
      i := i + 1;
    }
  }

  /** The buffer as it stands after the first `k` reads. */
  function BufferAfter(buf: seq<byte>, chunks: seq<Chunk>, k: nat): (r: seq<byte>)
    requires |buf| == BufferSize && FitsBuffer(chunks) && k <= |chunks|
    ensures |r| == BufferSize
    decreases k
  {
    if k == 0 then buf else BufferAfter(Fill(buf, chunks[0].data), chunks[1..], k - 1)
  }

  /** Every value sent is the progress text found in the buffer as it stood right
      after some read that returned bytes; by FindProgressIsMatchText, that is the
      leftmost-longest match in that buffer. */
  lemma {:induction false} SentAreMatches(buf: seq<byte>, chunks: seq<Chunk>, j: nat)
    requires |buf| == BufferSize && FitsBuffer(chunks)
    requires j < |Sent(buf, chunks)|
    ensures exists k: nat ::
      k < |chunks| && |chunks[k].data| > 0 && FindProgress(BufferAfter(buf, chunks, k + 1)).Some? &&
      Sent(buf, chunks)[j] == FindProgress(BufferAfter(buf, chunks, k + 1)).value
    decreases |chunks|
  {
    var b := Fill(buf, chunks[0].data);
    var m := AfterRead(b, chunks[0]);
    var head := Emitted(m);
    assert FitsBuffer(chunks[1..]);
    assert BufferAfter(buf, chunks, 1) == b;
    if j >= |head| {
      SentAreMatches(b, chunks[1..], j - |head|);
      var k: nat :| k < |chunks[1..]| && |chunks[1..][k].data| > 0 &&
        FindProgress(BufferAfter(b, chunks[1..], k + 1)).Some? &&
        Sent(b, chunks[1..])[j - |head|] == FindProgress(BufferAfter(b, chunks[1..], k + 1)).value;
      assert BufferAfter(buf, chunks, k + 2) == BufferAfter(b, chunks[1..], k + 1);
      assert chunks[k + 1] == chunks[1..][k];
      assert Sent(buf, chunks)[j] == Sent(b, chunks[1..])[j - |head|];
    }
  }

  /** The scan covers the whole reused buffer, not only the bytes just read: after
      "12.34 %" a one-byte read "7" makes the reader send "72.34", digits of which
      are left over from the first read. */
  lemma StaleBytesCanMatch()
    ensures Sent(ZeroBuffer(), [Chunk([49, 50, 46, 51, 52, 32, 37], false), Chunk([55], false)])
         == [[49, 50, 46, 51, 52], [55, 50, 46, 51, 52]]
  {
    var first: seq<byte> := [49, 50, 46, 51, 52, 32, 37];
    var b1 := Fill(ZeroBuffer(), first);
    StaleMatch(b1, 49);
    var b2 := Fill(b1, [55]);
    assert b1[..7] == first;
    forall k | 1 <= k < 7 ensures b2[k] == first[k] {
      assert b2[k] == b1[k] == b1[..7][k];
    }
    assert b2[..7] == [55, 50, 46, 51, 52, 32, 37];
    StaleMatch(b2, 55);
    var chunks := [Chunk(first, false), Chunk([55], false)];
    assert chunks[1..][1..] == [];
  }

  /** A buffer that starts "<c>2.34 %" yields "<c>2.34". */
  lemma {:induction false} StaleMatch(b: seq<byte>, c: byte)
    requires |b| >= 7 && IsDigit(c)
    requires b[..7] == [c, 50, 46, 51, 52, 32, 37]
    ensures FindProgress(b) == Some([c, 50, 46, 51, 52])
  {
    assert b[0] == c && b[1] == 50 && b[2] == 46 && b[3] == 51 && b[4] == 52 && b[5] == 32;
    assert RunEnd(b, 5) == 5;
    assert RunEnd(b, 3) == 5;
    assert RunEnd(b, 0) == 2;
    assert MatchAt(b, 0) == Some(5);
    assert b[0..5] == [c, 50, 46, 51, 52];
  }
}
