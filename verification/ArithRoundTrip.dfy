// Losslessness of the arithmetic coder: any run of decisions is recovered from the bytes.
module ArithRoundTrip {
  import opened ArithInterval
  import opened ArithBytes
  import opened ArithTermination
  import opened ArithEncoder
  import opened ArithDecoder
  import opened ByteSource

  function Bits(ds: Decisions): seq<Bit> {
    if ds.Nil? then [] else [ds.bit] + Bits(ds.tail)
  }

  // Encode a run of decisions as one segment behind what has already been written.
  method EncodeSegment(stats: Statistics, ds: Decisions, written: seq<Byte>)
    returns (out: seq<Byte>, after: Statistics, ghost data: seq<Byte>)
    ensures out == written + Stuff(data) && after == CodeAll(Start(stats), ds).stats
    ensures ShortestOf(data, CodeAll(Start(stats), ds))
    ensures data != [] ==> data[|data| - 1] != 0
  {
    hide Encoder.RegistersValid, Stuff, ShortestOf;
    var e := new Encoder(stats, written);
    var todo := ds;
    while todo.Decide?
      invariant fresh(e) && e.Valid() && e.before == written
      invariant CodeAll(e.Ideal(), todo) == CodeAll(Start(stats), ds)
      decreases todo
    {
      e.ArithEncode(todo.st, todo.bit);
      todo := todo.tail;
    }
    after := e.stats;
    e.FinishPass();
    out, data := e.out, e.sent;
  }

  // Decode as many decisions as ds has, with the bins of ds.
  method DecodeSegment(stats: Statistics, bins: Decisions, stream: seq<Byte>)
    returns (bits: seq<Bit>, after: Statistics)
    ensures Contains(ReadSegment(stream).data, CodeAll(Start(stats), bins))
            ==> bits == Bits(bins) && after == CodeAll(Start(stats), bins).stats
  {
    hide Decoder.RegistersValid, Decoder.SourceValid, Contains, ReadSegment;
    var d := new Decoder(stats, stream);
    var todo := bins;
    ghost var good := Contains(ReadSegment(stream).data, CodeAll(Start(stats), bins));
    ghost var goal := Goal(ReadSegment(stream), CodeAll(Start(stats), bins));
    bits := [];
    assert bits + Bits(bins) == Bits(bins);
    while todo.Decide?
      invariant fresh(d) && d.Valid() && d.ct != -1
      invariant good ==> d.Delivers(todo, goal) && bits + Bits(todo) == Bits(bins)
      decreases todo
    {
      var bit := d.ArithDecode(todo.st);
      bits := bits + [bit];
      todo := todo.tail;
    }
    after := d.stats;
    RenormKeepsStatistics(d.Ideal());
  }

  lemma RenormKeepsStatistics(e: Coder)
    ensures Usable(e) ==> Renorm(e).stats == e.stats
  {
  }

  // Encoding, finishing and appending a marker, then decoding with the same bins, returns
  // the decisions and leaves the same statistics.
  method RoundTrip(stats: Statistics, ds: Decisions, marker: Byte, trailer: seq<Byte>)
    returns (bits: seq<Bit>, coded: Statistics, decoded: Statistics)
    requires marker != 0 && marker != 0xFF
    ensures bits == Bits(ds) && decoded == coded
  {
    var out;
    ghost var data;
    out, coded, data := EncodeSegment(stats, ds, []);
    assert out == Stuff(data);
    ReadStuffed(data, [0xFF, marker] + trailer);
    ReadMarker(marker, trailer);
    assert data + [] == data;
    bits, decoded := DecodeSegment(stats, ds, out + ([0xFF, marker] + trailer));
  }
}
