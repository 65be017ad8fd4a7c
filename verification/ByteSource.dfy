// The byte source of the decoders and the markers in it (jdmarker.c, jdatasrc.c).
module ByteSource {
  import opened ArithInterval
  import opened ArithBytes

  const EOI: Byte := 0xD9
  const RST0: Byte := 0xD0

  // The data bytes of an entropy-coded segment, the marker that ends it, and the bytes
  // after that marker.
  datatype Segment = Segment(data: seq<Byte>, marker: Byte, after: seq<Byte>)

  // How a decoder reads a byte stream up to the next marker.  A stream that runs out is
  // continued with an EOI marker, which is what the data source inserts.
  function ReadSegment(rest: seq<Byte>): (s: Segment)
    ensures s.marker != 0 && s.marker != 0xFF
    decreases |rest|
  {
    if rest == [] then Segment([], EOI, [])
    else if rest[0] == 0xFF then ReadAfterFF(rest[1..])
    else var s := ReadSegment(rest[1..]); s.(data := [rest[0]] + s.data)
  }

  function ReadAfterFF(rest: seq<Byte>): (s: Segment)
    ensures s.marker != 0 && s.marker != 0xFF
    decreases |rest|
  {
    if rest == [] then Segment([], EOI, [])
    else if rest[0] == 0xFF then ReadAfterFF(rest[1..])
    else if rest[0] == 0 then var s := ReadSegment(rest[1..]); s.(data := [0xFF] + s.data)
    else Segment([], rest[0], rest[1..])
  }

  // Either a marker has been passed or the inserted EOI has been met.
  lemma {:induction false} AfterShorter(rest: seq<Byte>)
    ensures ReadSegment(rest).after == [] || |ReadSegment(rest).after| < |rest|
    ensures rest == [] ==> ReadSegment(rest).marker == EOI
    ensures rest != [] ==> |ReadSegment(rest).after| < |rest|
    decreases |rest|
  {
    if rest != [] {
      AfterFFShorter(rest[1..]);
      AfterShorter(rest[1..]);
    }
  }

  lemma {:induction false} AfterFFShorter(rest: seq<Byte>)
    ensures ReadAfterFF(rest).after == [] || |ReadAfterFF(rest).after| < |rest|
    decreases |rest|
  {
    if rest != [] {
      AfterFFShorter(rest[1..]);
      AfterShorter(rest[1..]);
    }
  }

  // A stuffed segment followed by a marker reads as the bytes before stuffing.
  lemma {:induction false} ReadStuffed(x: seq<Byte>, tail: seq<Byte>)
    ensures ReadSegment(Stuff(x) + tail) == var s := ReadSegment(tail); s.(data := x + s.data)
    decreases |x|
  {
    hide ReadSegment, StuffByte;
    if x == [] {
      assert Stuff(x) + tail == tail;
    } else {
      var y, b := x[..|x| - 1], x[|x| - 1];
      ReadStuffed(y, StuffByte(b) + tail);
      StuffedByteRead(b, tail);
      assert Stuff(x) + tail == Stuff(y) + (StuffByte(b) + tail);
      assert y + [b] == x;
      assert y + ([b] + ReadSegment(tail).data) == x + ReadSegment(tail).data;
    }
  }

  lemma ReadMarker(marker: Byte, after: seq<Byte>)
    requires marker != 0 && marker != 0xFF
    ensures ReadSegment([0xFF, marker] + after) == Segment([], marker, after)
  {
    var rest := [0xFF, marker] + after;
    assert rest[1..] == [marker] + after;
    assert rest[1..][1..] == after;
  }

  // Any number of 0xFF bytes may stand in front of a marker.
  lemma {:induction false} FillSkipped(n: nat, marker: Byte, after: seq<Byte>)
    requires marker != 0 && marker != 0xFF
    ensures ReadSegment(Fill(0xFF, n + 1) + [marker] + after) == Segment([], marker, after)
    ensures ReadAfterFF(Fill(0xFF, n) + [marker] + after) == Segment([], marker, after)
  {
    assert Fill(0xFF, n + 1) + [marker] + after == [0xFF] + (Fill(0xFF, n) + [marker] + after);
    if n > 0 {
      FillSkipped(n - 1, marker, after);
      assert Fill(0xFF, n) + [marker] + after == [0xFF] + (Fill(0xFF, n - 1) + [marker] + after);
    } else {
      assert Fill(0xFF, 0) + [marker] + after == [marker] + after;
    }
  }

  lemma StuffedByteRead(b: Byte, tail: seq<Byte>)
    ensures ReadSegment(StuffByte(b) + tail)
            == var s := ReadSegment(tail); s.(data := [b] + s.data)
  {
    var rest := StuffByte(b) + tail;
    if b == 0xFF {
      assert rest[1..] == [0] + tail;
      assert rest[1..][1..] == tail;
    } else {
      assert rest[1..] == tail;
    }
  }

  lemma FirstOf(all: seq<Byte>, k: nat, d: Byte, more: seq<Byte>)
    requires k <= |all| && [d] + more == all[k..]
    ensures k < |all| && d == all[k] && more == all[k + 1..]
  {
    assert ([d] + more)[1..] == all[k..][1..];
  }

  // What remains after an 0xFF, once fill bytes are skipped and b has been taken
  function AfterFill(b: Byte, rest: seq<Byte>): Segment
    requires b != 0xFF
  {
    if b == 0 then var s := ReadSegment(rest); s.(data := [0xFF] + s.data)
    else Segment([], b, rest)
  }

  // What remains once the byte c has been taken
  function AfterByte(c: Byte, rest: seq<Byte>): Segment {
    if c == 0xFF then ReadAfterFF(rest) else var s := ReadSegment(rest); s.(data := [c] + s.data)
  }

  function LeadingFFs(rest: seq<Byte>): nat {
    if rest == [] then 1 else if rest[0] == 0xFF then 1 + LeadingFFs(rest[1..]) else 0
  }

  // ----- Taking bytes -----

  // Take one byte from the source, which continues a stream that runs out with an EOI.
  method TakeByte(rest: seq<Byte>) returns (b: Byte, rest': seq<Byte>)
    ensures rest != [] ==> b == rest[0] && rest' == rest[1..]
    ensures rest == [] ==> b == 0xFF && rest' == [EOI]
    ensures AfterByte(b, rest') == ReadSegment(rest)
  {
    if rest == [] {
      b, rest' := 0xFF, [EOI];
    } else {
      b, rest' := rest[0], rest[1..];
    }
  }

  // Behind an 0xFF, take bytes up to the first that is not another one.
  method SkipFill(rest: seq<Byte>) returns (c: Byte, rest': seq<Byte>)
    ensures c != 0xFF && ReadAfterFF(rest) == AfterFill(c, rest')
    ensures rest != [] && rest[0] != 0xFF ==> c == rest[0] && rest' == rest[1..]
  {
    c, rest' := TakeByte(rest);
    while c == 0xFF
      invariant rest != [] && rest[0] != 0xFF ==> c == rest[0] && rest' == rest[1..]
      invariant ReadAfterFF(rest) == if c == 0xFF then ReadAfterFF(rest') else AfterFill(c, rest')
      decreases c == 0xFF, LeadingFFs(rest')
    {
      c, rest' := TakeByte(rest');
    }
  }

  // next_marker: data bytes on the way are extraneous, and so are those discarded before.
  method NextMarker(rest: seq<Byte>, discardedBytes: nat) returns (marker: Byte, rest': seq<Byte>, extraneous: bool)
    ensures marker != 0 && marker != 0xFF && marker == ReadSegment(rest).marker && rest' == ReadSegment(rest).after
    ensures extraneous <==> ReadSegment(rest).data != [] || discardedBytes > 0
  {
    hide ReadSegment, ReadAfterFF;
    var discarded := discardedBytes;
    var c: Byte := 0;
    ghost var data := ReadSegment(rest).data;
    rest' := rest;
    while c == 0
      invariant |data| <= |ReadSegment(rest).data| && discarded >= discardedBytes
      invariant discarded == discardedBytes <==> |data| == |ReadSegment(rest).data|
      invariant ReadSegment(rest).(data := data) == if c == 0 then ReadSegment(rest') else Segment([], c, rest')
      decreases c == 0, |data|
    {
      c, rest' := TakeByte(rest');
      while c != 0xFF
        invariant |data| <= |ReadSegment(rest).data| && discarded >= discardedBytes
        invariant discarded == discardedBytes <==> |data| == |ReadSegment(rest).data|
        invariant AfterByte(c, rest') == ReadSegment(rest).(data := data)
        decreases |data|
      {
        assert data[1..] == ReadSegment(rest').data;
        discarded, data := discarded + 1, data[1..];
        c, rest' := TakeByte(rest');
      }
      c, rest' := SkipFill(rest');
      if c == 0 {
        assert data[1..] == ReadSegment(rest').data;
        discarded, data := discarded + 2, data[1..];
      }
    }
    marker, extraneous := c, discarded != 0;
  }

  // ----- Restart markers -----

  // 1: discard the marker, 2: skip to the next marker, 3: leave the marker to be found again
  function RecoveryAction(marker: nat, desired: nat): nat {
    if marker < 0xC0 then 2
    else if marker < RST0 || marker > RST0 + 7 then 3
    else if marker == RST0 + (desired + 1) % 8 || marker == RST0 + (desired + 2) % 8 then 3
    else if marker == RST0 + (desired + 7) % 8 || marker == RST0 + (desired + 6) % 8 then 2
    else 1
  }

  // How far a restart marker is ahead of the one that is desired
  function Ahead(marker: nat, desired: nat): nat {
    (marker as int - RST0 - desired) % 8
  }

  predicate IsRestart(marker: nat) {
    RST0 <= marker <= RST0 + 7
  }

  // The desired marker lies further on: behind what is no marker, and behind a restart marker that is one
  // or two behind the desired one.
  predicate Skips(marker: nat, desired: nat) {
    marker < 0xC0 || (IsRestart(marker) && Ahead(marker, desired) >= 6)
  }

  // It has been missed: this marker is one or two ahead of it, or of another kind.
  predicate Leaves(marker: nat, desired: nat) {
    marker >= 0xC0 && (IsRestart(marker) ==> 1 <= Ahead(marker, desired) <= 2)
  }

  lemma ActionIs(marker: nat, desired: nat)
    requires desired < 8
    ensures RecoveryAction(marker, desired) == if Skips(marker, desired) then 2 else if Leaves(marker, desired) then 3 else 1
  {
  }

  // The marker found after skipping n others, and what is behind it
  function Found(marker: Byte, rest: seq<Byte>, n: nat): Segment {
    if n == 0 then Segment([], marker, rest) else ReadSegment(Found(marker, rest, n - 1).after)
  }

  // Recovery ends with the first marker that is not to be skipped. It is left to be found again, or else
  // dropped.
  predicate Resynced(marker: Byte, rest: seq<Byte>, desired: nat, n: nat, unread: Byte, rest': seq<Byte>) {
    && (forall k :: 0 <= k < n ==> Skips(Found(marker, rest, k).marker, desired))
    && !Skips(Found(marker, rest, n).marker, desired) && rest' == Found(marker, rest, n).after
    && unread == if Leaves(Found(marker, rest, n).marker, desired) then Found(marker, rest, n).marker else 0
  }

  // How often bytes were passed on the way to a marker, those discarded before counting for the first one
  function Passed(marker: Byte, rest: seq<Byte>, discardedBytes: nat, n: nat): nat {
    if n == 0 then 0
    else
      Passed(marker, rest, discardedBytes, n - 1)
      + if Found(marker, rest, n).data != [] || (n == 1 && discardedBytes > 0) then 1 else 0
  }

  // The marker that is waiting, or the next one
  ghost function Waiting(unread: Byte, rest: seq<Byte>): Segment {
    if unread == 0 then ReadSegment(rest) else Segment([], unread, rest)
  }

  // Default error recovery when a marker other than the expected restart marker is found
  method ResyncToRestart(marker: Byte, rest: seq<Byte>, desired: nat, discardedBytes: nat)
    returns (unread: Byte, rest': seq<Byte>, discarded: nat, warnings: nat, ghost n: nat)
    requires marker != 0 && marker != 0xFF && desired < 8
    ensures unread != 0xFF && Resynced(marker, rest, desired, n, unread, rest')
    ensures discarded == (if n == 0 then discardedBytes else 0) && warnings == 1 + Passed(marker, rest, discardedBytes, n)
  {
    hide Skips, Leaves, ReadSegment, RecoveryAction;
    unread, rest', discarded, warnings, n := marker, rest, discardedBytes, 1, 0;
    ActionIs(marker, desired);
    while RecoveryAction(unread, desired) == 2
      invariant unread != 0 && unread != 0xFF && unread == Found(marker, rest, n).marker && rest' == Found(marker, rest, n).after
      invariant forall k :: 0 <= k < n ==> Skips(Found(marker, rest, k).marker, desired)
      invariant RecoveryAction(unread, desired) == if Skips(unread, desired) then 2 else if Leaves(unread, desired) then 3 else 1
      invariant discarded == (if n == 0 then discardedBytes else 0) && warnings == 1 + Passed(marker, rest, discardedBytes, n)
      decreases |rest'|, if unread == EOI then 0 else 1
    {
      AfterShorter(rest');
      EndIsLeft(desired);
      var extraneous;
      unread, rest', extraneous := NextMarker(rest', discarded);
      n := n + 1;
      discarded := 0;
      ActionIs(unread, desired);
      if extraneous {
        warnings := warnings + 1;
      }
    }
    if RecoveryAction(unread, desired) == 1 {
      unread := 0;
    }
  }

  lemma EndIsLeft(desired: nat)
    requires desired < 8
    ensures RecoveryAction(EOI, desired) == 3
  {
  }

  // read_restart_marker: find the restart marker and advance past it. Bytes discarded before are
  // reported when a marker is searched for.
  method ReadRestartMarker(unreadMarker: Byte, rest: seq<Byte>, num: nat, discardedBytes: nat)
    returns (unread: Byte, rest': seq<Byte>, num': nat, discarded: nat, warnings: nat)
    requires unreadMarker != 0xFF && num < 8
    ensures unread != 0xFF && num' == (num + 1) % 8
    ensures warnings == 0 <==>
              && Waiting(unreadMarker, rest).data == [] && Waiting(unreadMarker, rest).marker == RST0 + num
              && (unreadMarker != 0 || discardedBytes == 0)
    ensures warnings == 0 ==> discarded == discardedBytes
    ensures var next := Waiting(unreadMarker, rest);
            if next.marker == RST0 + num then unread == 0 && rest' == next.after
            else exists n :: Resynced(next.marker, next.after, num, n, unread, rest')
  {
    hide ReadSegment, Resynced, Passed;
    unread, rest', discarded, warnings := unreadMarker, rest, discardedBytes, 0;
    if unread == 0 {
      var extraneous;
      unread, rest', extraneous := NextMarker(rest', discarded);
      discarded := 0;
      if extraneous {
        warnings := 1;
      }
    }
    if unread == RST0 + num {
      unread := 0;
    } else {
      var more;
      ghost var n;
      unread, rest', discarded, more, n := ResyncToRestart(unread, rest', num, discarded);
      warnings := warnings + more;
    }
    num' := (num + 1) % 8;
  }

  // ----- Segments between restart markers -----

  // Finished segments, each behind its predecessor's restart marker
  function Restarted(segments: seq<seq<Byte>>): seq<Byte> {
    if segments == [] then []
    else
      var j := |segments| - 1;
      Restarted(segments[..j]) + Stuff(segments[j]) + [0xFF, RST0 + j % 8]
  }

  // What is still to be read at the start of segment j
  function Remaining(segments: seq<seq<Byte>>, j: nat, trailer: seq<Byte>): seq<Byte>
    requires j < |segments|
    decreases |segments| - j
  {
    Stuff(segments[j]) +
    if j + 1 == |segments| then trailer
    else [0xFF, RST0 + j % 8] + Remaining(segments, j + 1, trailer)
  }

  lemma {:induction false} RestartedRemaining(segments: seq<seq<Byte>>, j: nat, trailer: seq<Byte>)
    requires j < |segments|
    ensures Restarted(segments[..j]) + Remaining(segments, j, trailer)
            == ScanBytes(segments) + trailer
    decreases |segments| - j
  {
    if j + 1 < |segments| {
      RestartedRemaining(segments, j + 1, trailer);
      assert segments[..j + 1][..j] == segments[..j];
    }
  }

  lemma RestartedSnoc(segments: seq<seq<Byte>>, data: seq<Byte>)
    ensures Restarted(segments + [data]) == Restarted(segments) + Stuff(data) + [0xFF, RST0 + |segments| % 8]
  {
    hide Stuff;
    var all := segments + [data];
    assert all[..|segments|] == segments && all[|segments|] == data && |all| - 1 == |segments|;
  }

  function ScanBytes(segments: seq<seq<Byte>>): seq<Byte>
    requires segments != []
  {
    Restarted(segments[..|segments| - 1]) + Stuff(segments[|segments| - 1])
  }

  lemma WholeStream(segments: seq<seq<Byte>>, trailer: seq<Byte>)
    requires segments != []
    ensures ScanBytes(segments) + trailer == Remaining(segments, 0, trailer)
  {
    RestartedRemaining(segments, 0, trailer);
    assert Restarted(segments[..0]) + Remaining(segments, 0, trailer) == Remaining(segments, 0, trailer);
  }

  // What is still to be read when a marker may have been met
  function Unread(unread: Byte, rest: seq<Byte>): seq<Byte> {
    if unread == 0 then rest else [0xFF, unread] + rest
  }

  // Segment j as a decoder reads it, with the marker and the bytes that follow the last one
  function SegmentAt(segments: seq<seq<Byte>>, j: nat, marker: Byte, follow: seq<Byte>): Segment
    requires j < |segments|
  {
    if j + 1 == |segments| then Segment(segments[j], marker, follow)
    else Segment(segments[j], RST0 + j % 8, Remaining(segments, j + 1, [0xFF, marker] + follow))
  }

  lemma RemainingRead(segments: seq<seq<Byte>>, j: nat, marker: Byte, follow: seq<Byte>)
    requires j < |segments| && marker != 0 && marker != 0xFF
    ensures ReadSegment(Remaining(segments, j, [0xFF, marker] + follow)) == SegmentAt(segments, j, marker, follow)
  {
    hide Stuff, ReadSegment;
    var data, trailer := segments[j], [0xFF, marker] + follow;
    var (m, rest) := if j + 1 == |segments| then (marker, follow) else (RST0 + j % 8, Remaining(segments, j + 1, trailer));
    assert Remaining(segments, j, trailer) == Stuff(data) + ([0xFF, m] + rest);
    ReadStuffed(data, [0xFF, m] + rest);
    ReadMarker(m, rest);
    assert data + [] == data;
  }

  // The segments can be told from the bytes.
  lemma {:induction false} SegmentsFromBytes(a: seq<seq<Byte>>, b: seq<seq<Byte>>, j: nat, trailer: seq<Byte>)
    requires j < |a| == |b| && trailer == [0xFF, EOI] && Remaining(a, j, trailer) == Remaining(b, j, trailer)
    ensures a[j..] == b[j..]
    decreases |a| - j
  {
    hide ReadSegment, Remaining;
    assert [0xFF, EOI] + [] == trailer;
    RemainingRead(a, j, EOI, []);
    RemainingRead(b, j, EOI, []);
    if j + 1 < |a| {
      SegmentsFromBytes(a, b, j + 1, trailer);
      assert a[j..] == [a[j]] + a[j + 1..] && b[j..] == [b[j]] + b[j + 1..];
    }
  }

  lemma SameSegments(a: seq<seq<Byte>>, b: seq<seq<Byte>>)
    requires |a| == |b| > 0 && ScanBytes(a) == ScanBytes(b)
    ensures a == b
  {
    hide ScanBytes;
    WholeStream(a, [0xFF, EOI]);
    WholeStream(b, [0xFF, EOI]);
    SegmentsFromBytes(a, b, 0, [0xFF, EOI]);
  }

  // Behind segment j, and in front of the next one, there is restart marker j modulo 8.
  lemma RestartsNumbered(segments: seq<seq<Byte>>, j: nat, marker: Byte, follow: seq<Byte>)
    requires j + 1 < |segments| && marker != 0 && marker != 0xFF
    ensures ReadSegment(Remaining(segments, j, [0xFF, marker] + follow))
            == Segment(segments[j], 0xD0 + j % 8, Remaining(segments, j + 1, [0xFF, marker] + follow))
  {
    RemainingRead(segments, j, marker, follow);
  }
}
