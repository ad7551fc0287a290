/**
 * The live-stream text frame: `"<ms>|id,x,y,pos|id,x,y,pos|..."`.
 * Decoding is pure: it yields the clock string shown in the sidebar and the
 * records to apply, in wire order.
 */
module Frame {
  import opened Wrappers
  import opened Text

  /** One accepted chunk: the car number, its target position and its race position. */
  datatype Record = Record(id: int, x: int, y: int, pos: int)

  /** A decoded frame: the clock text and the accepted records, in wire order. */
  datatype Decoded = Decoded(clock: string, records: seq<Record>)

  // ---------------------------------------------------------------------
  // One chunk

  /**
   * The three chained comma searches and the four field conversions of
   * main.cpp. Each search starts one past the previous hit; a failed search
   * returns -1, so the next one starts again at index 0. A chunk is dropped
   * only when the third search fails.
   */
  function DecodeChunk(chunk: string): Option<Record>
  {
    var c1 := IndexOf(chunk, ',', 0);
    var c2 := IndexOf(chunk, ',', c1 + 1);
    var c3 := IndexOf(chunk, ',', c2 + 1);
    if c3 == -1 then None else Some(Fields(chunk, c1, c2, c3))
  }

  /** `substring(0, c1)`, `substring(c1+1, c2)`, `substring(c2+1, c3)` and `substring(c3+1)`, each through `toInt`. */
  function Fields(chunk: string, c1: int, c2: int, c3: int): Record
    requires c1 >= -1 && c2 >= -1 && c3 >= -1
  {
    Record(
      ToInt(Substring(chunk, 0, Unsigned(c1))),
      ToInt(Substring(chunk, Unsigned(c1 + 1), Unsigned(c2))),
      ToInt(Substring(chunk, Unsigned(c2 + 1), Unsigned(c3))),
      ToInt(Substring(chunk, Unsigned(c3 + 1), |chunk|)))
  }

  /** The decoder keeps a record exactly when its third search hits. */
  lemma DecodeKeeps(chunk: string)
    ensures DecodeChunk(chunk).Some? <==> IndexOf(chunk, ',', IndexOf(chunk, ',', IndexOf(chunk, ',', 0) + 1) + 1) != -1
  {
  }

  /** A chunk is kept exactly when it holds one comma or at least three. */
  lemma ChunkAcceptance(chunk: string)
    ensures DecodeChunk(chunk).Some? <==> Count(chunk, ',', 0) == 1 || Count(chunk, ',', 0) >= 3
  {
    DecodeKeeps(chunk);
    SearchesAccept(chunk, IndexOf(chunk, ',', 0), IndexOf(chunk, ',', IndexOf(chunk, ',', 0) + 1),
                   IndexOf(chunk, ',', IndexOf(chunk, ',', IndexOf(chunk, ',', 0) + 1) + 1));
  }

  /**
   * The third search hits exactly when the text holds one comma (the failed
   * second search restarts the third at the beginning) or at least three.
   */
  lemma SearchesAccept(chunk: string, c1: int, c2: int, c3: int)
    requires c1 == IndexOf(chunk, ',', 0)
    requires c2 == IndexOf(chunk, ',', c1 + 1)
    requires c3 == IndexOf(chunk, ',', c2 + 1)
    ensures c3 != -1 <==> Count(chunk, ',', 0) == 1 || Count(chunk, ',', 0) >= 3
  {
    var n := Count(chunk, ',', 0);
    IndexOfCount(chunk, ',', 0);
    if c1 == -1 {
      assert c3 == -1 && n == 0;
    } else {
      IndexOfCount(chunk, ',', c1 + 1);
      if c2 == -1 {
        assert n == 1 && c3 == c1;
      } else {
        IndexOfCount(chunk, ',', c2 + 1);
        assert c3 == -1 <==> n == 2;
      }
    }
  }

  /** When the third search hits, the decoder yields the fields cut at the three hits. */
  lemma DecodeFound(chunk: string)
    requires IndexOf(chunk, ',', IndexOf(chunk, ',', IndexOf(chunk, ',', 0) + 1) + 1) != -1
    ensures DecodeChunk(chunk) == Some(Fields(chunk, IndexOf(chunk, ',', 0), IndexOf(chunk, ',', IndexOf(chunk, ',', 0) + 1),
                                              IndexOf(chunk, ',', IndexOf(chunk, ',', IndexOf(chunk, ',', 0) + 1) + 1)))
  {
  }

  /** Cuts at non-negative positions are the plain fields between them. */
  lemma FieldsAt(chunk: string, c1: int, c2: int, c3: int, p: nat, q: nat, r: nat)
    requires c1 == p && c2 == q && c3 == r
    ensures Fields(chunk, c1, c2, c3) == Record(ToInt(Substring(chunk, 0, p)), ToInt(Substring(chunk, p + 1, q)),
                                                ToInt(Substring(chunk, q + 1, r)), ToInt(Substring(chunk, r + 1, |chunk|)))
  {
    assert Unsigned(p) == p && Unsigned(p + 1) == p + 1 && Unsigned(q) == q
        && Unsigned(q + 1) == q + 1 && Unsigned(r) == r && Unsigned(r + 1) == r + 1;
  }

  /** With three or more commas the fields are the text before, between and after the first three. */
  lemma ThreeCommaFields(a: string, b: string, c: string, d: string)
    requires ',' !in a && ',' !in b && ',' !in c
    ensures DecodeChunk(a + "," + b + "," + c + "," + d)
         == Some(Record(ToInt(a), ToInt(b), ToInt(c), ToInt(d)))
  {
    var chunk := a + "," + b + "," + c + "," + d;
    var p, q, r := |a|, |a| + 1 + |b|, |a| + 1 + |b| + 1 + |c|;
    ThreeCommaLayout(a, b, c, d, chunk, p, q, r);
    CommasAt(chunk, p, q, r);
  }

  /** Where the commas of `a,b,c,d` are, and the fields between them. */
  lemma ThreeCommaLayout(a: string, b: string, c: string, d: string, chunk: string, p: nat, q: nat, r: nat)
    requires ',' !in a && ',' !in b && ',' !in c
    requires chunk == a + "," + b + "," + c + "," + d
    requires p == |a| && q == p + 1 + |b| && r == q + 1 + |c|
    ensures p < q < r < |chunk| && chunk[p] == ',' && chunk[q] == ',' && chunk[r] == ','
    ensures forall i :: 0 <= i < p ==> chunk[i] != ','
    ensures forall i :: p < i < q ==> chunk[i] != ','
    ensures forall i :: q < i < r ==> chunk[i] != ','
    ensures Substring(chunk, 0, p) == a && Substring(chunk, p + 1, q) == b
         && Substring(chunk, q + 1, r) == c && Substring(chunk, r + 1, |chunk|) == d
  {
    ThreeCommaSlices(a, b, c, d, chunk, p, q, r);
    forall i | 0 <= i < p ensures chunk[i] != ',' { assert chunk[i] == chunk[..p][i]; }
    forall i | p < i < q ensures chunk[i] != ',' { assert chunk[i] == chunk[p + 1..q][i - p - 1]; }
    forall i | q < i < r ensures chunk[i] != ',' { assert chunk[i] == chunk[q + 1..r][i - q - 1]; }
    SubstringInRange(chunk, 0, p);
    SubstringInRange(chunk, p + 1, q);
    SubstringInRange(chunk, q + 1, r);
    SubstringInRange(chunk, r + 1, |chunk|);
  }

  lemma ThreeCommaSlices(a: string, b: string, c: string, d: string, chunk: string, p: nat, q: nat, r: nat)
    requires chunk == a + "," + b + "," + c + "," + d
    requires p == |a| && q == p + 1 + |b| && r == q + 1 + |c|
    ensures p < q < r < |chunk| && chunk[p] == ',' && chunk[q] == ',' && chunk[r] == ','
    ensures chunk[..p] == a && chunk[p + 1..q] == b && chunk[q + 1..r] == c && chunk[r + 1..] == d
  {
    assert chunk == a + ("," + b) + ("," + c) + ("," + d);
  }

  /** The first three commas of `chunk` are at `p`, `q` and `r`: the decoder cuts there. */
  lemma CommasAt(chunk: string, p: nat, q: nat, r: nat)
    requires p < q < r < |chunk| && chunk[p] == ',' && chunk[q] == ',' && chunk[r] == ','
    requires forall i :: 0 <= i < p ==> chunk[i] != ','
    requires forall i :: p < i < q ==> chunk[i] != ','
    requires forall i :: q < i < r ==> chunk[i] != ','
    ensures DecodeChunk(chunk) == Some(Record(ToInt(Substring(chunk, 0, p)), ToInt(Substring(chunk, p + 1, q)),
                                              ToInt(Substring(chunk, q + 1, r)), ToInt(Substring(chunk, r + 1, |chunk|))))
  {
    IndexOfFinds(chunk, ',', 0, p);
    IndexOfFinds(chunk, ',', IndexOf(chunk, ',', 0) + 1, q);
    IndexOfFinds(chunk, ',', IndexOf(chunk, ',', IndexOf(chunk, ',', 0) + 1) + 1, r);
    DecodeFound(chunk);
    FieldsAt(chunk, IndexOf(chunk, ',', 0), IndexOf(chunk, ',', IndexOf(chunk, ',', 0) + 1),
             IndexOf(chunk, ',', IndexOf(chunk, ',', IndexOf(chunk, ',', 0) + 1) + 1), p, q, r);
  }

  /**
   * With exactly one comma the second search fails and the third finds the
   * first comma again, so `id,x` is accepted as the record `(id, x, id, x)`.
   * (Indices are C `int`s, so the chunk is shorter than 2^31.)
   */
  lemma OneCommaFields(a: string, b: string)
    requires ',' !in a && ',' !in b
    requires |a| + 1 + |b| <= LongMax
    ensures DecodeChunk(a + "," + b) == Some(Record(ToInt(a), ToInt(b), ToInt(a), ToInt(b)))
  {
    var chunk := a + "," + b;
    OneCommaLayout(a, b, chunk, |a|);
    OneCommaAt(chunk, |a|);
  }

  /** Where the comma of `a,b` is, and the fields on either side. */
  lemma OneCommaLayout(a: string, b: string, chunk: string, p: nat)
    requires ',' !in a && ',' !in b
    requires chunk == a + "," + b && p == |a|
    ensures p < |chunk| && chunk[p] == ','
    ensures forall i :: 0 <= i < p ==> chunk[i] != ','
    ensures forall i :: p < i < |chunk| ==> chunk[i] != ','
    ensures Substring(chunk, 0, p) == a && Substring(chunk, p + 1, |chunk|) == b
  {
    assert chunk[..p] == a && chunk[p + 1..] == b && chunk[p] == ',';
    forall i | 0 <= i < p ensures chunk[i] != ',' { assert chunk[i] == a[i]; }
    forall i | p < i < |chunk| ensures chunk[i] != ',' { assert chunk[i] == b[i - p - 1]; }
    SubstringInRange(chunk, 0, p);
    SubstringInRange(chunk, p + 1, |chunk|);
  }

  /**
   * The only comma of `chunk` is at `p`: the second search fails, the third
   * restarts at 0 and finds `p` again, and the third and fourth fields run
   * from `p + 1` to 2^32 - 1, clamped to the end.
   */
  lemma OneCommaAt(chunk: string, p: nat)
    requires p < |chunk| <= LongMax && chunk[p] == ','
    requires forall i :: 0 <= i < p ==> chunk[i] != ','
    requires forall i :: p < i < |chunk| ==> chunk[i] != ','
    ensures DecodeChunk(chunk) == Some(Record(ToInt(Substring(chunk, 0, p)), ToInt(Substring(chunk, p + 1, |chunk|)),
                                              ToInt(Substring(chunk, 0, p)), ToInt(Substring(chunk, p + 1, |chunk|))))
  {
    IndexOfFinds(chunk, ',', 0, p);
    IndexOfMisses(chunk, ',', IndexOf(chunk, ',', 0) + 1);
    IndexOfFinds(chunk, ',', IndexOf(chunk, ',', IndexOf(chunk, ',', 0) + 1) + 1, p);
    DecodeFound(chunk);
    OneCommaCuts(chunk, IndexOf(chunk, ',', 0), IndexOf(chunk, ',', IndexOf(chunk, ',', 0) + 1),
                 IndexOf(chunk, ',', IndexOf(chunk, ',', IndexOf(chunk, ',', 0) + 1) + 1), p);
  }

  /** Cuts at `p`, then at -1 (2^32 - 1 unsigned), then at `p` again. */
  lemma OneCommaCuts(chunk: string, c1: int, c2: int, c3: int, p: nat)
    requires c1 == p && c2 == -1 && c3 == p && p < |chunk| <= LongMax
    ensures Fields(chunk, c1, c2, c3) == Record(ToInt(Substring(chunk, 0, p)), ToInt(Substring(chunk, p + 1, |chunk|)),
                                                ToInt(Substring(chunk, 0, p)), ToInt(Substring(chunk, p + 1, |chunk|)))
  {
    assert Unsigned(p) == p && Unsigned(p + 1) == p + 1 && Unsigned(-1) == 0xFFFF_FFFF && Unsigned(-1 + 1) == 0;
  }

  // ---------------------------------------------------------------------
  // Splitting a frame at '|'

  /** The pieces between separators, as a reference for the decoding loop. */
  function Split(s: string): (parts: seq<string>)
    ensures |parts| >= 1
  {
    if |s| == 0 then [""]
    else
      var rest := Split(s[1..]);
      if s[0] == '|' then [""] + rest else [[s[0]] + rest[0]] + rest[1..]
  }

  /** No piece holds a separator. */
  lemma {:induction false} SplitPieces(s: string)
    ensures forall i :: 0 <= i < |Split(s)| ==> '|' !in Split(s)[i]
  {
    if |s| > 0 {
      SplitPieces(s[1..]);
      var rest := Split(s[1..]);
      if s[0] != '|' {
        assert '|' !in [s[0]] + rest[0];
      }
    }
  }

  function Join(parts: seq<string>): string
  {
    if |parts| <= 1 then (if |parts| == 0 then "" else parts[0])
    else parts[0] + "|" + Join(parts[1..])
  }

  /** Splitting loses nothing: joining the pieces back gives the text. */
  lemma {:induction false} JoinSplit(s: string)
    ensures Join(Split(s)) == s
  {
    if |s| > 0 {
      var rest := Split(s[1..]);
      JoinSplit(s[1..]);
      if s[0] == '|' {
        assert s == "|" + s[1..];
      } else {
        var parts := Split(s);
        assert parts[0] == [s[0]] + rest[0] && parts[1..] == rest[1..];
        if |rest| > 1 {
          assert Join(rest) == rest[0] + "|" + Join(rest[1..]);
        }
      }
    }
  }

  lemma {:induction false} SplitNoSeparator(s: string)
    requires '|' !in s
    ensures Split(s) == [s]
  {
    if |s| > 0 {
      SplitNoSeparator(s[1..]);
      assert [s[0]] + s[1..] == s;
    }
  }

  lemma {:induction false} SplitAtFirst(a: string, b: string)
    requires '|' !in a
    ensures Split(a + "|" + b) == [a] + Split(b)
  {
    if |a| == 0 {
      assert a + "|" + b == "|" + b;
      assert ("|" + b)[1..] == b;
    } else {
      assert (a + "|" + b)[1..] == a[1..] + "|" + b;
      SplitAtFirst(a[1..], b);
      assert [a[0]] + a[1..] == a;
    }
  }

  /** A chunk's record as a sequence of zero or one element. */
  function Kept(chunk: string): (k: seq<Record>)
    ensures |k| <= 1
  {
    match DecodeChunk(chunk)
    case Some(r) => [r]
    case None => []
  }

  /** The records of the accepted chunks, in order. */
  function Accepted(chunks: seq<string>): (rs: seq<Record>)
    ensures |rs| <= |chunks|
  {
    if |chunks| == 0 then [] else Kept(chunks[0]) + Accepted(chunks[1..])
  }

  // ---------------------------------------------------------------------
  // The clock

  /**
   * `sprintf("%d:%02d:%02d", ...)` of the frame's millisecond timestamp, with
   * C's truncating division and remainder.
   */
  function Clock(ms: int): string
  {
    var totalSec := CDiv(ms, 1000);
    Printf(CDiv(totalSec, 3600), 0) + ":" + Printf(CDiv(CMod(totalSec, 3600), 60), 2)
      + ":" + Printf(CMod(totalSec, 60), 2)
  }

  lemma TwoDigits(n: nat)
    requires n < 100
    ensures |Printf(n, 2)| == 2
  {
    if n >= 10 {
      assert Decimal(n) == Decimal(n / 10) + [DigitChar(n % 10)];
    }
  }

  lemma HoursMinutesSeconds(t: nat)
    ensures (t / 3600) * 3600 + ((t % 3600) / 60) * 60 + t % 60 == t
    ensures (t % 3600) / 60 < 60
  {
    var r := t % 3600;
    assert t == (t / 3600) * 3600 + r;
    assert r == (r / 60) * 60 + r % 60;
    assert t % 60 == r % 60 by {
      assert t == ((t / 3600) * 60 + r / 60) * 60 + r % 60;
    }
  }

  /** With a non-negative timestamp C's division and remainder are Dafny's. */
  lemma ClockOfNatural(ms: nat)
    ensures var total := ms / 1000;
      Clock(ms) == Printf(total / 3600, 0) + ":" + Printf((total % 3600) / 60, 2) + ":" + Printf(total % 60, 2)
  {
    var total := ms / 1000;
    assert CDiv(ms, 1000) == total;
    assert CMod(total, 3600) == total % 3600;
    assert CMod(total, 60) == total % 60;
  }

  /** Reading `H:MM:SS` back field by field with `atol`. */
  lemma ReadClockFields(t: string, h: nat, m: nat, s: nat)
    requires h <= LongMax && m < 60 && s < 60
    requires t == Printf(h, 0) + ":" + Printf(m, 2) + ":" + Printf(s, 2)
    ensures |t| >= 7 && t[|t| - 6] == ':' && t[|t| - 3] == ':'
    ensures ToInt(t) == h && ToInt(t[|t| - 5..|t| - 3]) == m && ToInt(t[|t| - 2..]) == s
  {
    var H, M, S := Printf(h, 0), Printf(m, 2), Printf(s, 2);
    TwoDigits(m);
    TwoDigits(s);
    ClockLayout(H, M, S, t);
    ToIntPrintf(h, 0, ":" + M + ":" + S);
    ToIntPrintf(m, 2, []);
    ToIntPrintf(s, 2, []);
  }

  /** Where the two colons of `H:MM:SS` are, and the two-digit fields after them. */
  lemma ClockLayout(H: string, M: string, S: string, t: string)
    requires |H| > 0 && |M| == 2 && |S| == 2
    requires t == H + ":" + M + ":" + S
    ensures |t| >= 7 && t[|t| - 6] == ':' && t[|t| - 3] == ':'
    ensures t[|t| - 5..|t| - 3] == M + [] && t[|t| - 2..] == S + []
    ensures t == H + (":" + M + ":" + S)
  {
    assert t == (H + ":") + M + (":" + S);
  }

  /**
   * For a non-negative timestamp the clock reads back, field by field with
   * the same `atol`, as hours, minutes below 60 and seconds below 60 that
   * make up the whole seconds of the timestamp.
   */
  lemma ClockReadsBack(ms: int)
    requires 0 <= ms <= LongMax
    ensures var t := Clock(ms);
      && |t| >= 7 && t[|t| - 6] == ':' && t[|t| - 3] == ':'
      && 0 <= ToInt(t[|t| - 5..|t| - 3]) < 60
      && 0 <= ToInt(t[|t| - 2..]) < 60
      && ToInt(t) * 3600 + ToInt(t[|t| - 5..|t| - 3]) * 60 + ToInt(t[|t| - 2..]) == ms / 1000
  {
    var total: nat := ms / 1000;
    HoursMinutesSeconds(total);
    ClockOfNatural(ms);
    ReadClockFields(Clock(ms), total / 3600, (total % 3600) / 60, total % 60);
  }

  // ---------------------------------------------------------------------
  // The whole frame

  /**
   * A frame without '|' is dropped. Otherwise the text before the first '|'
   * is the timestamp and the pieces after it are the chunks, decoded in order.
   */
  function DecodeFrame(msg: string): Option<Decoded>
  {
    var pipe := IndexOf(msg, '|', 0);
    if pipe == -1 then None
    else Some(Decoded(Clock(ToInt(Substring(msg, 0, pipe))), Accepted(Split(msg[pipe + 1..]))))
  }

  /** A frame is dropped exactly when it holds no '|'. */
  lemma DecodeFrameDrops(msg: string)
    ensures DecodeFrame(msg).None? <==> '|' !in msg
  {
    IndexOfSkips(msg, '|', 0);
  }

  /** Where the chunk starting at `start` ends: at the next '|', or at the end of the text. */
  function ChunkEnd(msg: string, start: nat): (e: nat)
    requires start < |msg|
    ensures start <= e <= |msg|
  {
    var hit := IndexOf(msg, '|', start);
    if hit == -1 then |msg| else hit
  }

  lemma AcceptedCons(chunk: string, rest: seq<string>)
    ensures Accepted([chunk] + rest) == Kept(chunk) + Accepted(rest)
  {
    assert ([chunk] + rest)[0] == chunk && ([chunk] + rest)[1..] == rest;
  }

  /** No '|' is left after `start`: the rest of the text is the last piece. */
  lemma SplitLast(msg: string, start: nat)
    requires start < |msg| && IndexOf(msg, '|', start) == -1
    ensures Split(msg[start..]) == [msg[start..]]
  {
    IndexOfSkips(msg, '|', start);
    var chunk := msg[start..];
    assert '|' !in chunk by {
      forall i | 0 <= i < |chunk| ensures chunk[i] != '|' {
        assert chunk[i] == msg[start + i];
      }
    }
    SplitNoSeparator(chunk);
  }

  /** The next '|' after `start` is at `e`: one piece up to it, then the pieces after it. */
  lemma SplitAt(msg: string, start: nat, e: int)
    requires start < |msg| && e != -1 && IndexOf(msg, '|', start) == e
    ensures start <= e < |msg|
    ensures Split(msg[start..]) == [msg[start..e]] + Split(msg[e + 1..])
  {
    IndexOfSkips(msg, '|', start);
    var chunk := msg[start..e];
    assert '|' !in chunk by {
      forall i | 0 <= i < |chunk| ensures chunk[i] != '|' {
        assert chunk[i] == msg[start + i];
      }
    }
    CutAt(msg, start, e);
    SplitAtFirst(chunk, msg[e + 1..]);
  }

  /** A text cut at a '|' at `e`. */
  lemma CutAt(s: string, start: nat, e: nat)
    requires start <= e < |s| && s[e] == '|'
    ensures s[start..] == s[start..e] + "|" + s[e + 1..]
  {
  }

  /** The records of the accepted pieces from `i` on; nothing once `i` is past the end. */
  function RecordsFrom(msg: string, i: nat): seq<Record>
  {
    if i <= |msg| then Accepted(Split(msg[i..])) else []
  }

  /** A frame with a '|' carries the clock of the text before it and the records of the chunks after it. */
  lemma DecodeFrameAt(msg: string)
    requires IndexOf(msg, '|', 0) != -1
    ensures DecodeFrame(msg)
            == Some(Decoded(Clock(ToInt(Substring(msg, 0, IndexOf(msg, '|', 0)))), RecordsFrom(msg, IndexOf(msg, '|', 0) + 1)))
  {
    assert IndexOf(msg, '|', 0) + 1 <= |msg|;
    assert RecordsFrom(msg, IndexOf(msg, '|', 0) + 1) == Accepted(Split(msg[IndexOf(msg, '|', 0) + 1..]));
  }

  /** The chunk up to `ChunkEnd` contributes its record first, then the pieces after it follow. */
  lemma RecordsFromStep(msg: string, start: nat)
    requires start < |msg|
    ensures RecordsFrom(msg, start)
            == Kept(Substring(msg, start, ChunkEnd(msg, start))) + RecordsFrom(msg, ChunkEnd(msg, start) + 1)
  {
    if IndexOf(msg, '|', start) == -1 {
      RecordsFromLast(msg, start);
    } else {
      RecordsFromAt(msg, start);
    }
  }

  lemma AcceptedOne(chunk: string)
    ensures Accepted([chunk]) == Kept(chunk)
  {
    assert [chunk][1..] == [];
  }

  /** No '|' after `start`: the rest of the text is the last chunk. */
  lemma RecordsFromLast(msg: string, start: nat)
    requires start < |msg| && IndexOf(msg, '|', start) == -1
    ensures RecordsFrom(msg, start) == Kept(Substring(msg, start, |msg|))
  {
    assert Substring(msg, start, |msg|) == msg[start..] by {
      SubstringInRange(msg, start, |msg|);
    }
    assert Accepted(Split(msg[start..])) == Kept(msg[start..]) by {
      SplitLast(msg, start);
      AcceptedOne(msg[start..]);
    }
  }

  /** A '|' after `start`: the chunk before it, then the pieces after it. */
  lemma RecordsFromAt(msg: string, start: nat)
    requires start < |msg| && IndexOf(msg, '|', start) != -1
    ensures RecordsFrom(msg, start)
            == Kept(Substring(msg, start, ChunkEnd(msg, start))) + RecordsFrom(msg, ChunkEnd(msg, start) + 1)
  {
    assert Substring(msg, start, ChunkEnd(msg, start)) == msg[start..ChunkEnd(msg, start)] by {
      SubstringInRange(msg, start, ChunkEnd(msg, start));
    }
    AcceptedSplitAt(msg, start);
  }

  lemma AcceptedFirst(chunks: seq<string>, chunk: string, rest: seq<string>)
    requires chunks == [chunk] + rest
    ensures Accepted(chunks) == Kept(chunk) + Accepted(rest)
  {
    AcceptedCons(chunk, rest);
  }

  lemma AcceptedSplitAt(msg: string, start: nat)
    requires start < |msg| && IndexOf(msg, '|', start) != -1
    ensures ChunkEnd(msg, start) < |msg|
    ensures Accepted(Split(msg[start..]))
            == Kept(msg[start..ChunkEnd(msg, start)]) + Accepted(Split(msg[ChunkEnd(msg, start) + 1..]))
  {
    SplitAt(msg, start, ChunkEnd(msg, start));
    AcceptedFirst(Split(msg[start..]), msg[start..ChunkEnd(msg, start)], Split(msg[ChunkEnd(msg, start) + 1..]));
  }

  /** After a trailing '|' the one empty piece left is dropped. */
  lemma SplitEnd(msg: string)
    ensures Accepted(Split(msg[|msg|..])) == []
  {
    assert msg[|msg|..] == "";
    assert DecodeChunk("") == None;
    AcceptedCons("", []);
  }
}
