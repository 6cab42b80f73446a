/**
 Messages out of a byte stream that arrives in pieces. `ChunkingInvisible`: however the stream is cut,
 re-parsing the growing buffer extracts the same values and leaves the same bytes as parsing it at once.
 */
module Stream {
  import opened Common
  import opened Resp
  import opened RespCodec

  /** The complete values at the head of the buffer, what is left, and whether that is a protocol error. */
  datatype Extraction = Extraction(values: seq<Value>, rest: bytes, error: bool)

  function Extract(s: bytes): Extraction
    decreases |s|
  {
    if s == [] then Extraction([], [], false)
    else
      match Parse(s)
      case Incomplete => Extraction([], s, false)
      case Malformed => Extraction([], s, true)
      case Complete(v, n) => var e := Extract(s[n..]); e.(values := [v] + e.values)
  }

  /** Extracting early and then from the leftover plus the new bytes is extracting from everything. */
  lemma {:induction false} ExtractAppend(a: bytes, b: bytes)
    ensures var e := Extract(a); var f := Extract(e.rest + b);
            Extract(a + b) == Extraction(e.values + f.values, f.rest, f.error)
    decreases |a|
  {
    hide ParseValue;
    if a != [] && Parse(a).Complete? {
      var n := Parse(a).pos;
      assert (a + b)[..n] == a[..n] && (a + b)[n..] == a[n..] + b;
      CompleteIsLocal(a, a + b);
      ExtractAppend(a[n..], b);
    } else {
      assert Extract(a).rest + b == a + b;
    }
  }

  lemma {:induction false} RestIsSettled(s: bytes)
    ensures var e := Extract(s); Extract(e.rest) == Extraction([], e.rest, e.error)
    decreases |s|
  {
    hide ParseValue;
    if s != [] && Parse(s).Complete? { RestIsSettled(s[Parse(s).pos..]); }
  }

  /** A protocol error stays, and nothing is extracted any more. */
  lemma {:induction false} ErrorStays(a: bytes, b: bytes)
    requires Extract(a).error
    ensures Extract(a + b) == Extraction(Extract(a).values, Extract(a).rest + b, true)
  {
    var e := Extract(a);
    RestIsSettled(a);
    ExtractAppend(a, b);
    ErrorIsStable(e.rest, b);
    assert e.values + [] == e.values;
  }

  function Concat(chunks: seq<bytes>): bytes {
    if chunks == [] then [] else Concat(Front(chunks)) + Last(chunks)
  }

  function Front(chunks: seq<bytes>): seq<bytes>
    requires chunks != []
  {
    chunks[..|chunks| - 1]
  }

  function Last(chunks: seq<bytes>): bytes
    requires chunks != []
  {
    chunks[|chunks| - 1]
  }

  /** One extraction after every chunk, from what the ones before have left. */
  function ExtractChunks(chunks: seq<bytes>): Extraction
    decreases |chunks|
  {
    if chunks == [] then Extraction([], [], false)
    else
      var e := ExtractChunks(Front(chunks));
      var f := Extract(e.rest + Last(chunks));
      f.(values := e.values + f.values)
  }

  lemma {:induction false} ChunkingInvisible(chunks: seq<bytes>)
    ensures ExtractChunks(chunks) == Extract(Concat(chunks))
    decreases |chunks|
  {
    hide Extract;
    if chunks == [] {
      ExtractNothing();
    } else {
      ChunkingInvisible(Front(chunks));
      ExtractAppend(Concat(Front(chunks)), Last(chunks));
    }
  }

  lemma {:induction false} ExtractNothing()
    ensures Extract([]) == Extraction([], [], false)
  {
  }

  /** A pipeline of clean messages followed by an unfinished one is extracted exactly as sent. */
  lemma {:induction false} PipelineExtracted(vs: seq<Value>, rest: bytes)
    requires SizedAll(vs) && CleanAll(vs)
    ensures Extract(EncodeAll(vs) + rest) == var e := Extract(rest); e.(values := SentAll(vs) + e.values)
    decreases vs
  {
    hide ParseValue, Encode, Sent, Clean, Sized;
    if vs == [] {
      assert [] + rest == rest;
      assert [] + Extract(rest).values == Extract(rest).values;
    } else {
      var v, tail := vs[0], EncodeAll(vs[1..]) + rest;
      assert EncodeAll(vs) + rest == Encode(v) + tail;
      RoundTrip(v, tail);
      assert (Encode(v) + tail)[|Encode(v)|..] == tail;
      PipelineExtracted(vs[1..], rest);
      assert [Sent(v)] + (SentAll(vs[1..]) + Extract(rest).values) == SentAll(vs) + Extract(rest).values;
    }
  }

  /** If some message of a pipeline is not clean, what is extracted does not begin with the messages sent. */
  lemma {:induction false} PipelineBroken(vs: seq<Value>, rest: bytes)
    requires SizedAll(vs) && !CleanAll(vs)
    ensures !(SentAll(vs) <= Extract(EncodeAll(vs) + rest).values)
    decreases vs
  {
    hide ParseValue, Encode, Sent, Clean, Sized;
    var v, tail := vs[0], EncodeAll(vs[1..]) + rest;
    var s := Encode(v) + tail;
    assert EncodeAll(vs) + rest == s && s[0..|Encode(v)|] == Encode(v);
    ValueFound(s, 0, v);
    var got := Extract(s).values;
    if SentAll(vs) <= got {
      assert got[0] == SentAll(vs)[0] == Sent(v);
      assert SentAll(vs[1..]) == SentAll(vs)[1..] <= got[1..];
      assert s[|Encode(v)|..] == tail;
      PipelineBroken(vs[1..], rest);
    }
  }
}
