/** Frame synchronisation on the sensor's serial input, as done by `read_data`
    in o2.py: skip bytes until the marker 0xFA, drop the marker, and return
    whatever the next read of 10 bytes delivers.

    The serial input is a finite sequence of events read from the front. A
    `Timeout` event is a read deadline (one second on the port) expiring with
    no byte: a single-byte read then returns nothing, and a 10-byte read
    returns early with the bytes it has so far. The end of the sequence means
    that nothing more ever arrives. */
module FrameSync {

  import opened Wrappers

  /** One thing a read on the port can observe. */
  datatype Event = Byte(b: bv8) | Timeout

  /** What one call of `read_data` yields: the payload and the input left
      after it, or `NoMarker` when the input ends before any marker (where
      the source keeps polling forever). */
  datatype ReadResult = NoMarker | Frame(payload: seq<bv8>, rest: seq<Event>)

  /** The synchronisation marker that precedes every frame. */
  const Marker: bv8 := 0xFA

  /** The number of bytes requested after the marker. */
  const PayloadLength: nat := 10

  /** The stream as the sensor sends it when every read is served in time. */
  function Events(bs: seq<bv8>): (es: seq<Event>)
    ensures |es| == |bs|
    ensures forall i :: 0 <= i < |bs| ==> es[i] == Byte(bs[i])
  {
    seq(|bs|, i requires 0 <= i < |bs| => Byte(bs[i]))
  }

  /** The scan loop: what is left of the input after the first marker byte,
      or None when the input holds no marker. */
  function Scan(s: seq<Event>): Option<seq<Event>>
  {
    if s == [] then None
    else if s[0] == Byte(Marker) then Some(s[1..])
    else Scan(s[1..])
  }

  /** `read(n)`: up to n bytes, stopping early at a read timeout (which is
      used up) or at the end of the input; also the input left afterwards. */
  function ReadUpTo(s: seq<Event>, n: nat): (seq<bv8>, seq<Event>)
  {
    if n == 0 || s == [] then ([], s)
    else match s[0]
      case Timeout => ([], s[1..])
      case Byte(b) =>
        var (bytes, rest) := ReadUpTo(s[1..], n - 1);
        ([b] + bytes, rest)
  }

  /** `read_data`: scan for the marker, then read up to PayloadLength bytes. */
  function Sync(s: seq<Event>): ReadResult
  {
    match Scan(s)
    case None => NoMarker
    case Some(afterMarker) =>
      var (payload, rest) := ReadUpTo(afterMarker, PayloadLength);
      Frame(payload, rest)
  }

  /** `read_data` as the source runs it: a byte-at-a-time scan loop followed
      by a loop that collects the payload. */
  method ReadData(s: seq<Event>) returns (r: ReadResult)
    ensures r == Sync(s)
  {
    var pos := 0;
    while pos < |s| && s[pos] != Byte(Marker)
      invariant 0 <= pos <= |s|
      invariant Scan(s) == Scan(s[pos..])
    {
      assert s[pos..][1..] == s[pos + 1..];
      pos := pos + 1;
    }
    if pos == |s| {
      return NoMarker;
    }
    assert s[pos..][1..] == s[pos + 1..];
    pos := pos + 1;
    ghost var afterMarker := s[pos..];
    var data: seq<bv8> := [];
    assert data + ReadUpTo(afterMarker, PayloadLength).0 == ReadUpTo(afterMarker, PayloadLength).0;
    while |data| < PayloadLength && pos < |s| && s[pos].Byte?
      invariant |data| <= PayloadLength && pos <= |s|
      invariant var tail := ReadUpTo(s[pos..], PayloadLength - |data|);
        ReadUpTo(afterMarker, PayloadLength) == (data + tail.0, tail.1)
    {
      assert s[pos..][1..] == s[pos + 1..];
      var tail := ReadUpTo(s[pos + 1..], PayloadLength - |data| - 1);
      assert ReadUpTo(s[pos..], PayloadLength - |data|) == ([s[pos].b] + tail.0, tail.1);
      assert data + ([s[pos].b] + tail.0) == (data + [s[pos].b]) + tail.0;
      data := data + [s[pos].b];
      pos := pos + 1;
    }
    if |data| < PayloadLength && pos < |s| {
      // the read timed out before PayloadLength bytes arrived
      assert s[pos..][1..] == s[pos + 1..];
      pos := pos + 1;
    }
    r := Frame(data, s[pos..]);
  }

  /** The scan finds a marker exactly when the input holds one. */
  lemma {:induction false} ScanFindsMarker(s: seq<Event>)
    ensures Scan(s).Some? <==> Byte(Marker) in s
  {
    if s != [] && s[0] != Byte(Marker) {
      ScanFindsMarker(s[1..]);
      assert s == [s[0]] + s[1..];
    }
  }

  /** The scan resumes right after the FIRST marker: every byte before it and
      the marker itself are discarded. */
  lemma {:induction false} ScanStopsAtFirstMarker(s: seq<Event>, k: nat)
    requires k < |s| && s[k] == Byte(Marker)
    requires forall j :: 0 <= j < k ==> s[j] != Byte(Marker)
    ensures Scan(s) == Some(s[k + 1..])
  {
    if k > 0 {
      ScanStopsAtFirstMarker(s[1..], k - 1);
      assert s[1..][k..] == s[k + 1..];
    }
  }

  /** What `read(n)` delivers: at most n bytes, each the next byte of the
      input in order; it stops short of n only at a timeout (which it uses
      up) or at the end of the input, and leaves the rest untouched. */
  lemma {:induction false} ReadUpToShape(s: seq<Event>, n: nat)
    ensures var (bytes, rest) := ReadUpTo(s, n);
      && |bytes| <= n && |bytes| <= |s|
      && (forall j :: 0 <= j < |bytes| ==> s[j] == Byte(bytes[j]))
      && (if |bytes| == n then rest == s[n..]
          else if |bytes| == |s| then rest == []
          else s[|bytes|] == Timeout && rest == s[|bytes| + 1..])
  {
    if n != 0 && s != [] && s[0].Byte? {
      ReadUpToShape(s[1..], n - 1);
      var (bytes, rest) := ReadUpTo(s[1..], n - 1);
      assert ReadUpTo(s, n) == ([s[0].b] + bytes, rest);
      if |bytes| != n - 1 && |bytes| != |s| - 1 {
        assert s[1..][|bytes| + 1..] == s[|bytes| + 2..];
      }
    }
  }

  /** On an input with no timeouts, `read(n)` takes exactly the next
      min(n, available) bytes. */
  lemma {:induction false} ReadUpToBytes(bs: seq<bv8>, n: nat)
    ensures var m := if n < |bs| then n else |bs|;
      ReadUpTo(Events(bs), n) == (bs[..m], Events(bs[m..]))
  {
    if n != 0 && bs != [] {
      var tail := bs[1..];
      var m := if n < |bs| then n else |bs|;
      ReadUpToBytes(tail, n - 1);
      assert Events(bs)[1..] == Events(tail);
      assert bs[..m] == [bs[0]] + tail[..m - 1];
      assert tail[m - 1..] == bs[m..];
    }
  }

  /** `read_data` on an input whose first marker is at index k: the payload
      is the run of bytes right after that marker, at most PayloadLength of
      them, cut short only by a timeout or the end of the input. Bytes
      before the marker and the marker itself are never part of it, and a
      0xFA inside the payload is copied like any other byte. */
  lemma {:induction false} SyncAfterFirstMarker(s: seq<Event>, k: nat)
    requires k < |s| && s[k] == Byte(Marker)
    requires forall j :: 0 <= j < k ==> s[j] != Byte(Marker)
    ensures Sync(s).Frame?
    ensures var p := Sync(s).payload;
      && |p| <= PayloadLength
      && k + 1 + |p| <= |s|
      && (forall j :: 0 <= j < |p| ==> s[k + 1 + j] == Byte(p[j]))
      && (|p| < PayloadLength && k + 1 + |p| < |s| ==> s[k + 1 + |p|] == Timeout)
  {
    ScanStopsAtFirstMarker(s, k);
    ReadUpToShape(s[k + 1..], PayloadLength);
  }

  /** Every frame's payload holds at most PayloadLength bytes. */
  lemma SyncPayloadBound(s: seq<Event>)
    ensures Sync(s).Frame? ==> |Sync(s).payload| <= PayloadLength
  {
    if Scan(s).Some? {
      ReadUpToShape(Scan(s).value, PayloadLength);
    }
  }

  /** `read_data` finds no frame exactly when the input holds no marker. */
  lemma SyncNoMarker(s: seq<Event>)
    ensures Sync(s) == NoMarker <==> Byte(Marker) !in s
  {
    ScanFindsMarker(s);
  }

  /** On an input with no timeouts and its first marker at index k, the
      payload is exactly the (up to) ten bytes that follow the marker. */
  lemma {:induction false} SyncOnByteStream(bs: seq<bv8>, k: nat)
    requires k < |bs| && bs[k] == Marker
    requires forall j :: 0 <= j < k ==> bs[j] != Marker
    ensures var m := if k + 1 + PayloadLength < |bs| then k + 1 + PayloadLength else |bs|;
      Sync(Events(bs)) == Frame(bs[k + 1..m], Events(bs[m..]))
  {
    ScanStopsAtFirstMarker(Events(bs), k);
    var after := bs[k + 1..];
    assert Events(bs)[k + 1..] == Events(after);
    ReadUpToBytes(after, PayloadLength);
    var m := if k + 1 + PayloadLength < |bs| then k + 1 + PayloadLength else |bs|;
    assert after[..m - (k + 1)] == bs[k + 1..m];
    assert after[m - (k + 1)..] == bs[m..];
  }

  /** A second 0xFA right after the marker is payload, not a new marker. */
  lemma MarkerInsidePayloadIsData()
    ensures Sync(Events([0x01, 0xFA, 0xFA, 0x02])) == Frame([0xFA, 0x02], [])
  {
    SyncOnByteStream([0x01, 0xFA, 0xFA, 0x02], 1);
  }
}
