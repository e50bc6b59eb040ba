/** `dgp_reader.c`: cutting a byte stream into LSAs, however the bytes arrive. */
module Reader {
  import opened Bytes
  import opened Lsas
  import opened Varint
  import opened Codec
  import opened Deserialiser

  /** `sizeof(dr->buf)`. */
  const BUFSIZE: nat := 65536

  /** `Open` to go on reading, `Closed` after an error return, `Dead` after an abort. */
  datatype Link = Open | Closed | Dead

  /** The LSAs of a stream, the bytes still waiting for more, and how the stream ended. */
  datatype Stream = Stream(lsas: seq<Lsa>, rest: seq<byte>, link: Link)

  function Window(s: seq<byte>): seq<byte> {
    if |s| <= BUFSIZE then s else s[..BUFSIZE]
  }

  function Listed(l: Option<Lsa>): seq<Lsa> {
    if l.Some? then [l.value] else []
  }

  function After(lsas: seq<Lsa>, r: Stream): Stream {
    Stream(lsas + r.lsas, r.rest, r.link)
  }

  /** The whole stream, frame by frame; a frame must end within a buffer's length. */
  function ParseStream(s: seq<byte>): Stream
    decreases |s|
  {
    if s == [] then Stream([], [], Open)
    else
      match Deser(Window(s))
      case Got(l, n) => After(Listed(l), ParseStream(s[n..]))
      case More => if |s| >= BUFSIZE then Stream([], [], Closed) else Stream([], s, Open)
      case Bad => Stream([], [], Closed)
      case Abort => Stream([], [], Dead)
  }

  /** What waits is less than a buffer and holds no complete frame. */
  lemma {:induction false} Drained(s: seq<byte>)
    ensures var r := ParseStream(s);
            r.link == Open ==> |r.rest| < BUFSIZE && ParseStream(r.rest) == Stream([], r.rest, Open)
    ensures ParseStream(s).link != Open ==> ParseStream(s).rest == []
    decreases |s|
  {
    hide Deser;
    if s != [] && Deser(Window(s)).Got? {
      var n := Deser(Window(s)).n;
      DeserLength(Window(s));
      Drained(s[n..]);
    }
  }

  lemma DeserLength(s: seq<byte>)
    ensures Deser(s).Got? ==> 1 <= Deser(s).n <= |s|
  {
  }

  /** One turn of the parse. */
  lemma StreamTurn(s: seq<byte>)
    requires s != []
    ensures Deser(Window(s)).Got? ==>
              && 1 <= Deser(Window(s)).n <= |s|
              && ParseStream(s) == After(Listed(Deser(Window(s)).lsa), ParseStream(s[Deser(Window(s)).n..]))
    ensures Deser(Window(s)).More? ==>
              ParseStream(s) == if |s| >= BUFSIZE then Stream([], [], Closed) else Stream([], s, Open)
    ensures Deser(Window(s)).Bad? ==> ParseStream(s) == Stream([], [], Closed)
    ensures Deser(Window(s)).Abort? ==> ParseStream(s) == Stream([], [], Dead)
  {
    hide Deser;
    DeserLength(Window(s));
  }

  /** Going on with `b` after a parse. */
  function Resume(r: Stream, b: seq<byte>): Stream {
    if r.link == Open then After(r.lsas, ParseStream(r.rest + b)) else r
  }

  /** Parsing may stop anywhere and go on with what waited. */
  lemma {:induction false} StreamSplit(a: seq<byte>, b: seq<byte>)
    ensures ParseStream(a + b) == Resume(ParseStream(a), b)
    decreases |a|
  {
    hide ParseStream, Deser, Resume;
    if a == [] {
      assert a + b == b;
      StreamEnd();
      SplitWaiting([], b);
    } else {
      StreamTurn(a);
      StreamTurn(a + b);
      if Deser(Window(a)).More? {
        if |a| >= BUFSIZE {
          assert Window(a + b) == Window(a);
          SplitEnded(a, b);
        } else {
          SplitWaiting(a, b);
        }
      } else {
        WindowGrows(a, b);
        if Deser(Window(a)).Got? {
          var Got(l, n) := Deser(Window(a));
          StreamSplit(a[n..], b);
          assert (a + b)[n..] == a[n..] + b;
          SplitLater(a, b, Listed(l), n);
        } else {
          SplitEnded(a, b);
        }
      }
    }
    assert ParseStream(a + b) == Resume(ParseStream(a), b);
  }

  lemma SplitWaiting(a: seq<byte>, b: seq<byte>)
    requires ParseStream(a) == Stream([], a, Open)
    ensures ParseStream(a + b) == Resume(ParseStream(a), b)
  {
    hide ParseStream;
    NoneBefore(a + b);
  }

  lemma SplitEnded(a: seq<byte>, b: seq<byte>)
    requires ParseStream(a + b) == ParseStream(a) && ParseStream(a).link != Open
    ensures ParseStream(a + b) == Resume(ParseStream(a), b)
  {
  }

  lemma SplitLater(a: seq<byte>, b: seq<byte>, l: seq<Lsa>, n: nat)
    requires n <= |a|
    requires ParseStream(a) == After(l, ParseStream(a[n..])) && ParseStream(a + b) == After(l, ParseStream(a[n..] + b))
    requires ParseStream(a[n..] + b) == Resume(ParseStream(a[n..]), b)
    ensures ParseStream(a + b) == Resume(ParseStream(a), b)
  {
    hide ParseStream;
    var q := ParseStream(a[n..]);
    if q.link == Open {
      AfterAfter(l, q.lsas, ParseStream(q.rest + b));
    }
  }

  lemma AfterAfter(x: seq<Lsa>, y: seq<Lsa>, r: Stream)
    ensures After(x, After(y, r)) == After(x + y, r)
  {
    assert x + (y + r.lsas) == (x + y) + r.lsas;
  }

  lemma NoneBefore(s: seq<byte>)
    ensures After([], ParseStream(s)) == ParseStream(s)
  {
    assert [] + ParseStream(s).lsas == ParseStream(s).lsas;
  }

  /** A result on the window stands when the stream grows. */
  lemma WindowGrows(a: seq<byte>, b: seq<byte>)
    requires !Deser(Window(a)).More?
    ensures Deser(Window(a + b)) == Deser(Window(a))
  {
    hide Deser;
    if |a| >= BUFSIZE {
      assert Window(a + b) == Window(a);
    } else {
      var more := Window(a + b)[|a|..];
      assert Window(a + b) == a + more;
      DeserStable(a, more);
    }
  }

  /**
   * A stream with a frame of length 1 to 31 in front stays there: no LSA is ever delivered, and
   * the link is closed as soon as the buffer is full.
   */
  lemma ShortFrameBlocks(s: seq<byte>, t: seq<byte>)
    requires DecInt(s).IntOk? && 1 <= DecInt(s).v < NODE_ID_LEN
    ensures ParseStream(s + t) == if |s + t| >= BUFSIZE then Stream([], [], Closed) else Stream([], s + t, Open)
  {
    hide ParseStream, Deser, DecInt, DecLoop;
    var n := DecInt(s).n;
    ShortInt(s);
    assert s == s[..n] + s[n..];
    var w := Window(s + t);
    assert n <= |w| && w == s[..n] + w[n..];
    DecPrefix(s, n);
    DecStable(s[..n], w[n..]);
    ShortFrameMore(w);
    StreamTurn(s + t);
  }

  lemma ShortFrameMore(s: seq<byte>)
    requires DecInt(s).IntOk? && 1 <= DecInt(s).v < NODE_ID_LEN
    ensures Deser(s).More?
  {
    ShortInt(s);
  }

  lemma ShortInt(s: seq<byte>)
    requires DecInt(s).IntOk?
    ensures DecInt(s).n <= 10 && s != []
  {
    TenAtMost(s, 1, s[0] % 128);
  }

  /** Reading an integer looks at its own bytes only. */
  lemma DecPrefix(s: seq<byte>, n: nat)
    requires DecInt(s).IntOk? && DecInt(s).n == n
    ensures n <= |s| && DecInt(s[..n]) == DecInt(s)
  {
    DecLoopPrefix(s, 1, s[0] % 128, n);
  }

  lemma {:induction false} DecLoopPrefix(s: seq<byte>, i: nat, v: nat, n: nat)
    requires 1 <= i <= n <= |s| && DecLoop(s, i, v).IntOk? && DecLoop(s, i, v).n == n
    ensures DecLoop(s[..n], i, v) == DecLoop(s, i, v)
    decreases n - i
  {
    if s[i - 1] >= 128 {
      DecLoopPrefix(s, i + 1, (v * 128) % TWO_64 + s[i] % 128, n);
    }
  }

  /** What successive reads deliver, starting with `waiting` in the buffer. */
  function Feed(waiting: seq<byte>, chunks: seq<seq<byte>>): Stream
    decreases |chunks|
  {
    if chunks == [] then Stream([], waiting, Open)
    else
      var r := ParseStream(waiting + chunks[0]);
      if r.link != Open then r
      else After(r.lsas, Feed(r.rest, chunks[1..]))
  }

  function Joined(chunks: seq<seq<byte>>): seq<byte> {
    if chunks == [] then [] else chunks[0] + Joined(chunks[1..])
  }

  /** However a stream is cut into reads, the same LSAs come out and the link ends the same way. */
  lemma {:induction false} ChunkingIsIrrelevant(waiting: seq<byte>, chunks: seq<seq<byte>>)
    requires ParseStream(waiting) == Stream([], waiting, Open)
    ensures Feed(waiting, chunks) == ParseStream(waiting + Joined(chunks))
    decreases |chunks|
  {
    hide ParseStream, After;
    if chunks == [] {
      assert waiting + [] == waiting;
    } else {
      var a, b := waiting + chunks[0], Joined(chunks[1..]);
      assert waiting + Joined(chunks) == a + b;
      StreamSplit(a, b);
      Drained(a);
      var r := ParseStream(a);
      if r.link == Open {
        ChunkingIsIrrelevant(r.rest, chunks[1..]);
      }
    }
  }

  class DgpReader {
    const buf: array<byte>
    var bytes: nat
    var lsas: seq<Lsa>

    ghost predicate Valid()
      reads this, buf
    {
      && buf.Length == BUFSIZE && bytes < BUFSIZE
      && ParseStream(buf[..bytes]) == Stream([], buf[..bytes], Open)
    }

    /** `dgp_reader_register`. */
    constructor ()
      ensures Valid() && fresh(buf) && buf[..bytes] == [] && lsas == []
    {
      buf := new byte[BUFSIZE](_ => 0);
      bytes := 0;
      lsas := [];
    }

    /** The loop of `dgp_reader_read`: takes complete frames off the buffer. */
    method Take() returns (link: Link, off: nat)
      requires buf.Length == BUFSIZE && 0 < bytes <= BUFSIZE
      modifies this`lsas
      ensures var r := ParseStream(buf[..bytes]);
              && link == r.link && lsas == old(lsas) + r.lsas
              && (link == Open ==> off <= bytes && buf[off..bytes] == r.rest)
    {
      hide ParseStream, Deser, After, Listed, Window;
      link, off := Open, 0;
      ghost var s, taken := buf[..bytes], [];
      NoneBefore(s);
      FirstTurn(s);
      while off < bytes
        invariant 0 <= off <= bytes && link == Open && buf[..bytes] == s && lsas == old(lsas) + taken
        invariant ParseStream(s) == After(taken, ParseStream(s[off..]))
        decreases bytes - off
      {
        ghost var t := s[off..];
        assert buf[off..bytes] == t;
        WholeWindow(t);
        StreamTurn(t);
        var lsa, r := Deserialise(buf[off..bytes]);
        match r {
          case Bad =>
            TakeEnds(taken, ParseStream(t));
            return Closed, off;
          case Abort =>
            TakeEnds(taken, ParseStream(t));
            return Dead, off;
          case More =>
            TakeEnds(taken, ParseStream(t));
            if off == 0 && bytes == BUFSIZE {
              return Closed, off;
            }
            return Open, off;
          case Got(l, len) =>
            if lsa != null {
              lsas := lsas + [Lsa(lsa.id, lsa.root)];
            }
            TakeMore(taken, l, ParseStream(t[len..]), old(lsas));
            taken := taken + Listed(l);
            SuffixOfSuffix(s, off, len);
            off := off + len;
        }
      }
      assert s[off..] == [];
      StreamEnd();
      TakeEnds(taken, ParseStream([]));
    }

    /**
     * `dgp_reader_read` once `read` returned `chunk`. After a successful return the buffer has room
     * for the next read; the LSAs delivered are those the stream so far holds.
     */
    method Read(chunk: seq<byte>) returns (link: Link)
      requires Valid() && 0 < |chunk| <= BUFSIZE - bytes
      modifies this, buf
      ensures var r := ParseStream(old(buf[..bytes]) + chunk);
              && link == r.link && lsas == old(lsas) + r.lsas
              && (link == Open ==> Valid() && buf[..bytes] == r.rest)
    {
      hide ParseStream;
      forall i | 0 <= i < |chunk| {
        buf[bytes + i] := chunk[i];
      }
      bytes := bytes + |chunk|;
      assert buf[..bytes] == old(buf[..bytes]) + chunk;
      Drained(buf[..bytes]);
      var off: nat;
      link, off := Take();
      if link != Open {
        return;
      }
      ghost var left := buf[off..bytes];
      forall i | 0 <= i < bytes - off {
        buf[i] := buf[off + i];
      }
      bytes := bytes - off;
      assert buf[..bytes] == left;
    }
  }

  /** What follows whole frames decides: a malformed frame closes the link, one that aborts ends the program. */
  lemma FramesThenFailure(s: seq<byte>, t: seq<byte>)
    requires ParseStream(s).link == Open && ParseStream(s).rest == [] && t != []
    ensures Deser(Window(t)).Bad? ==> ParseStream(s + t) == Stream(ParseStream(s).lsas, [], Closed)
    ensures Deser(Window(t)).Abort? ==> ParseStream(s + t) == Stream(ParseStream(s).lsas, [], Dead)
    ensures Deser(Window(t)).More? && |t| >= BUFSIZE ==> ParseStream(s + t) == Stream(ParseStream(s).lsas, [], Closed)
    ensures Deser(Window(t)).More? && |t| < BUFSIZE ==> ParseStream(s + t) == Stream(ParseStream(s).lsas, t, Open)
  {
    hide ParseStream, Deser;
    StreamSplit(s, t);
    StreamTurn(t);
    assert [] + t == t && ParseStream(s).lsas + [] == ParseStream(s).lsas;
  }

  lemma WholeWindow(s: seq<byte>)
    requires |s| <= BUFSIZE
    ensures Window(s) == s
  {
  }

  lemma SuffixOfSuffix(s: seq<byte>, i: nat, n: nat)
    requires i + n <= |s|
    ensures s[i..][n..] == s[i + n..]
  {
  }

  lemma FirstTurn(s: seq<byte>)
    ensures s[0..] == s
  {
  }

  lemma TakeEnds(taken: seq<Lsa>, r: Stream)
    ensures r.lsas == [] ==> After(taken, r) == Stream(taken, r.rest, r.link)
  {
    assert taken + [] == taken;
  }

  lemma TakeMore(taken: seq<Lsa>, l: Option<Lsa>, r: Stream, before: seq<Lsa>)
    ensures After(taken, After(Listed(l), r)) == After(taken + Listed(l), r)
    ensures before + (taken + Listed(l)) == if l.Some? then (before + taken) + [l.value] else before + taken
  {
    AfterAfter(taken, Listed(l), r);
  }

  lemma StreamEnd()
    ensures ParseStream([]) == Stream([], [], Open)
  {
  }
}
