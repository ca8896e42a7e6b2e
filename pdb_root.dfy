/**
 * The stream directory of an MSF 7.00 container (the PDB "root stream"):
 * count_pages and the split done by init_pdb7_root_stream. The root-stream
 * image is a signed 32-bit stream count, then one 32-bit size per stream,
 * then the page numbers of every stream, one 32-bit word each, stream after
 * stream. Integers in the image are little-endian.
 */
module PdbRoot {
  import opened Wrappers
  import opened Bytes

  /** The marker of an unused stream in the size table. */
  const UT32_MAX: nat := 0xffff_ffff

  function Abs(x: int): nat
  {
    if x < 0 then -x else x
  }

  /** C's `/` on int: the quotient truncated toward zero. */
  function CDiv(a: int, b: int): int
    requires b != 0
  {
    var d: int := Abs(a) / Abs(b);
    if (a < 0) == (b < 0) then d else -d
  }

  /** C's `%` on int: what the truncated quotient leaves, with the dividend's sign. */
  function CRem(a: int, b: int): int
    requires b != 0
  {
    a - b * CDiv(a, b)
  }

  /** count_pages: the number of pages of `pageSize` bytes a stream of `length` bytes occupies. */
  function CountPages(length: int, pageSize: int): int
  {
    if pageSize > 0 then CDiv(length, pageSize) + (if CRem(length, pageSize) != 0 then 1 else 0) else 0
  }

  /** For a non-negative length the count is the ceiling of length / pageSize; without a page size it is 0. */
  lemma CountPagesIsCeiling(length: int, pageSize: int)
    requires length >= 0
    ensures pageSize <= 0 ==> CountPages(length, pageSize) == 0
    ensures pageSize > 0 ==> CountPages(length, pageSize) >= 0
    ensures pageSize > 0 ==> (CountPages(length, pageSize) - 1) * pageSize < length <= CountPages(length, pageSize) * pageSize
  {
    if pageSize > 0 {
      var q := length / pageSize;
      var r := length % pageSize;
      assert CDiv(length, pageSize) == q;
      assert length == pageSize * q + r && 0 <= r < pageSize;
      assert CRem(length, pageSize) == r;
      if r == 0 {
        assert CountPages(length, pageSize) == q;
        assert (q - 1) * pageSize == q * pageSize - pageSize;
      } else {
        assert CountPages(length, pageSize) == q + 1;
        assert (q + 1) * pageSize == q * pageSize + pageSize;
      }
    }
  }

  /** A negative stream size that is a whole number of pages gives a negative count. */
  lemma NegativeSizeCount()
    ensures CountPages(-8192, 4096) == -2
    ensures CountPages(-5, 4) == 0
  {
    assert CDiv(-8192, 4096) == -2;
    assert CDiv(-5, 4) == -1;
  }

  // ---------------------------------------------------------------------
  // The root-stream image

  /** The 32-bit word at `off`. */
  function Word32At(data: seq<byte>, off: nat): (w: nat)
    requires off + 4 <= |data|
    ensures w <= UT32_MAX
  {
    data[off] as int + 256 * (data[off + 1] as int) + 0x1_0000 * (data[off + 2] as int) + 0x100_0000 * (data[off + 3] as int)
  }

  /** The `n` words from `off` on: a stream's page list as memcpy copies it. */
  function Words(data: seq<byte>, off: nat, n: nat): (r: seq<nat>)
    requires off + 4 * n <= |data|
    ensures |r| == n
    ensures forall k :: 0 <= k < n ==> r[k] == Word32At(data, off + 4 * k)
  {
    seq(n, k requires 0 <= k < n => Word32At(data, off + 4 * k))
  }

  /** Two runs of words one after the other are one run. */
  lemma WordsConcat(data: seq<byte>, off: nat, a: nat, b: nat)
    requires off + 4 * (a + b) <= |data|
    ensures Words(data, off, a) + Words(data, off + 4 * a, b) == Words(data, off, a + b)
  {
    var left := Words(data, off, a) + Words(data, off + 4 * a, b);
    forall k | 0 <= k < a + b
      ensures left[k] == Words(data, off, a + b)[k]
    {
      if k >= a {
        assert left[k] == Words(data, off + 4 * a, b)[k - a];
      }
    }
  }

  /** Byte i of the image; past its end, where memcpy reads memory outside the image, the model reads 0. */
  function ByteAt(data: seq<byte>, i: nat): nat
  {
    if i < |data| then data[i] as nat else 0
  }

  /** The 32-bit word at `off`, with bytes past the image read as 0. */
  function WordAt(data: seq<byte>, off: nat): (w: nat)
    ensures w <= UT32_MAX
    ensures off + 4 <= |data| ==> w == Word32At(data, off)
  {
    ByteAt(data, off) + 256 * ByteAt(data, off + 1) + 0x1_0000 * ByteAt(data, off + 2) + 0x100_0000 * ByteAt(data, off + 3)
  }

  /** The `n` words memcpy copies from `off` on; inside the image they are the image's words. */
  function Copied(data: seq<byte>, off: nat, n: nat): (r: seq<nat>)
    ensures |r| == n
    ensures forall k :: 0 <= k < n ==> r[k] == WordAt(data, off + 4 * k)
    ensures off + 4 * n <= |data| ==> r == Words(data, off, n)
  {
    seq(n, k requires 0 <= k < n => WordAt(data, off + 4 * k))
  }

  /** Two copies one after the other are one copy. */
  lemma CopiedConcat(data: seq<byte>, off: nat, a: nat, b: nat)
    ensures Copied(data, off, a) + Copied(data, off + 4 * a, b) == Copied(data, off, a + b)
  {
    var left := Copied(data, off, a) + Copied(data, off + 4 * a, b);
    forall k | 0 <= k < a + b
      ensures left[k] == Copied(data, off, a + b)[k]
    {
      if k >= a {
        assert left[k] == Copied(data, off + 4 * a, b)[k - a];
      }
    }
  }

  /** The bound checked against: tmp_data_max_size = data_size - (num_streams * 4 - 4). */
  function MaxSize(dataSize: int, numStreams: int): int
  {
    dataSize - (numStreams * 4 - 4)
  }

  /** Where the page lists start: after the count and the size table. */
  function ListsStart(numStreams: nat): nat
  {
    4 + 4 * numStreams
  }

  /**
   * Stream i's size: the loop reads the table while `tmp_data + 4 < data_end`,
   * that is while 8 + 4i < tmp_data_max_size; an unread size keeps calloc's 0,
   * and the 0xffffffff marker reads as 0.
   */
  function SizeAt(data: seq<byte>, max: int, i: nat): (s: int)
    requires max <= |data|
    ensures -0x8000_0000 <= s < 0x8000_0000
  {
    if 8 + 4 * i < max then
      var w := Word32At(data, 4 + 4 * i);
      if w == UT32_MAX then 0 else ToInt32(w)
    else 0
  }

  /** The size table as the first loop leaves it. */
  function Sizes(data: seq<byte>, numStreams: nat, max: int): (r: seq<int>)
    requires max <= |data|
    ensures |r| == numStreams
    ensures forall i :: 0 <= i < numStreams ==> r[i] == SizeAt(data, max, i)
  {
    seq(numStreams, i requires 0 <= i < numStreams => SizeAt(data, max, i))
  }

  // ---------------------------------------------------------------------
  // The page-list bound (see Findings in README.md)

  /**
   * The copy bound as written: `pos + size > tmp_data_max_size` fails. Since
   * the lists start 4 + 4 * num_streams bytes in, this lets a copy end up to
   * 8 bytes past the image.
   */
  predicate CopyFitsAsWritten(dataSize: int, numStreams: nat, pos: nat, size: nat)
  {
    pos + size <= MaxSize(dataSize, numStreams)
  }

  /** The same check measured from where the page lists start. */
  predicate CopyFits(dataSize: int, numStreams: nat, pos: nat, size: nat)
  {
    pos + size <= MaxSize(dataSize, numStreams) - 8
  }

  /** The corrected check admits exactly the copies that stay inside the image. */
  lemma CopyFitsInside(dataSize: int, numStreams: nat, pos: nat, size: nat)
    ensures CopyFits(dataSize, numStreams, pos, size) <==> ListsStart(numStreams) + pos + size <= dataSize
  {
  }

  /** The check as written admits exactly the copies that end at most 8 bytes past the image. */
  lemma CopyFitsAsWrittenOverrun(dataSize: int, numStreams: nat, pos: nat, size: nat)
    ensures CopyFitsAsWritten(dataSize, numStreams, pos, size) <==> ListsStart(numStreams) + pos + size <= dataSize + 8
  {
  }

  /** The split as written, or with the corrected copy check. */
  datatype Bound = AsWritten | Corrected

  predicate CopyAllowed(b: Bound, dataSize: int, numStreams: nat, pos: nat, size: nat)
  {
    if b == AsWritten then CopyFitsAsWritten(dataSize, numStreams, pos, size) else CopyFits(dataSize, numStreams, pos, size)
  }

  /** How far past the image a copy the check admits may end. */
  function Overrun(b: Bound): nat
  {
    if b == AsWritten then 8 else 0
  }

  // ---------------------------------------------------------------------
  // The page-list loop

  /** One entry of the stream list: the SPage record. */
  datatype Page = Page(streamSize: int, pages: seq<nat>)

  datatype RootStream = RootStream(numStreams: nat, streams: seq<Page>)

  /** `o` with `ps` put in front of its streams. */
  function Prepend(ps: seq<Page>, o: Option<seq<Page>>): (r: Option<seq<Page>>)
    ensures r.Some? <==> o.Some?
    ensures r.Some? ==> r.value == ps + o.value
  {
    match o
    case None => None
    case Some(rest) => Some(ps + rest)
  }

  lemma PrependNothing(o: Option<seq<Page>>)
    ensures Prepend([], o) == o
  {
    if o.Some? {
      assert [] + o.value == o.value;
    }
  }

  lemma PrependTwice(ps: seq<Page>, p: Page, o: Option<seq<Page>>)
    ensures Prepend(ps, Prepend([p], o)) == Prepend(ps + [p], o)
  {
    if o.Some? {
      assert ps + ([p] + o.value) == (ps + [p]) + o.value;
    }
  }

  /**
   * Streams i onwards, their page lists starting `pos` bytes after the size
   * table. A count that reaches past `tmp_data_max_size`, a negative count,
   * and a copy the bound `b` refuses fail.
   */
  function StreamsFrom(data: seq<byte>, sizes: seq<int>, i: nat, pos: nat, pageSize: int, b: Bound): Option<seq<Page>>
    requires i <= |sizes|
    decreases |sizes| - i
  {
    if i == |sizes| then Some([])
    else
      var n := CountPages(sizes[i], pageSize);
      if pos + n > MaxSize(|data|, |sizes|) || n < 0 then None
      else if n == 0 then Prepend([Page(0, [])], StreamsFrom(data, sizes, i + 1, pos, pageSize, b))
      else if !CopyAllowed(b, |data|, |sizes|, pos, 4 * n) then None
      else
        Prepend([Page(sizes[i], Copied(data, ListsStart(|sizes|) + pos, n))],
                StreamsFrom(data, sizes, i + 1, pos + 4 * n, pageSize, b))
  }

  /** The whole split: None where init_pdb7_root_stream returns 0. */
  function RootStreamOf(data: seq<byte>, pageSize: int, b: Bound): Option<RootStream>
    requires 4 <= |data|
  {
    var count := ToInt32(Word32At(data, 0));
    var max := MaxSize(|data|, count);
    if max > |data| then None
    else if count < 0 || max <= 0 then None
    else match StreamsFrom(data, Sizes(data, count, max), 0, 0, pageSize, b)
      case None => None
      case Some(streams) => Some(RootStream(count, streams))
  }

  /** All the page numbers, stream after stream. */
  function Flatten(ps: seq<Page>): seq<nat>
  {
    if ps == [] then [] else ps[0].pages + Flatten(ps[1..])
  }

  /** The record stream i gets for a size of `size` bytes. */
  predicate Describes(p: Page, size: int, pageSize: int)
  {
    var n := CountPages(size, pageSize);
    |p.pages| == n && p.streamSize == (if n == 0 then 0 else size)
  }

  /** One step of the loop: the head record, and the streams after it from where its list ends. */
  lemma StreamsFromStep(data: seq<byte>, sizes: seq<int>, i: nat, pos: nat, pageSize: int, b: Bound)
    requires i < |sizes|
    requires StreamsFrom(data, sizes, i, pos, pageSize, b).Some?
    ensures var n := CountPages(sizes[i], pageSize);
      var ps := StreamsFrom(data, sizes, i, pos, pageSize, b).value;
      n >= 0 && StreamsFrom(data, sizes, i + 1, pos + 4 * n, pageSize, b).Some?
      && ps == [ps[0]] + StreamsFrom(data, sizes, i + 1, pos + 4 * n, pageSize, b).value
      && Describes(ps[0], sizes[i], pageSize)
      && (n > 0 ==> ListsStart(|sizes|) + pos + 4 * n <= |data| + Overrun(b)
                    && ps[0].pages == Copied(data, ListsStart(|sizes|) + pos, n))
  {
    var n := CountPages(sizes[i], pageSize);
    if n > 0 {
      CopyFitsInside(|data|, |sizes|, pos, 4 * n);
      CopyFitsAsWrittenOverrun(|data|, |sizes|, pos, 4 * n);
    } else {
      assert pos + 4 * n == pos;
    }
  }

  /** Every stream from i on gets count_pages(size) page numbers. */
  lemma {:induction false} StreamsFromCounts(data: seq<byte>, sizes: seq<int>, i: nat, pos: nat, pageSize: int, b: Bound)
    requires i <= |sizes|
    requires StreamsFrom(data, sizes, i, pos, pageSize, b).Some?
    ensures var ps := StreamsFrom(data, sizes, i, pos, pageSize, b).value;
      |ps| == |sizes| - i && forall j :: 0 <= j < |ps| ==> Describes(ps[j], sizes[i + j], pageSize)
    decreases |sizes| - i
  {
    if i < |sizes| {
      var n := CountPages(sizes[i], pageSize);
      StreamsFromStep(data, sizes, i, pos, pageSize, b);
      StreamsFromCounts(data, sizes, i + 1, pos + 4 * n, pageSize, b);
    }
  }

  /** The page numbers of the streams from i on are the words copied from right after pos, in order. */
  lemma {:induction false} StreamsFromWords(data: seq<byte>, sizes: seq<int>, i: nat, pos: nat, pageSize: int, b: Bound)
    requires i <= |sizes|
    requires StreamsFrom(data, sizes, i, pos, pageSize, b).Some?
    ensures var all := Flatten(StreamsFrom(data, sizes, i, pos, pageSize, b).value);
      && all == Copied(data, ListsStart(|sizes|) + pos, |all|)
      && (all != [] ==> ListsStart(|sizes|) + pos + 4 * |all| <= |data| + Overrun(b))
    decreases |sizes| - i
  {
    if i < |sizes| {
      var n := CountPages(sizes[i], pageSize);
      var ps := StreamsFrom(data, sizes, i, pos, pageSize, b).value;
      StreamsFromStep(data, sizes, i, pos, pageSize, b);
      StreamsFromWords(data, sizes, i + 1, pos + 4 * n, pageSize, b);
      var rest := StreamsFrom(data, sizes, i + 1, pos + 4 * n, pageSize, b).value;
      assert ps[1..] == rest;
      assert Flatten(ps) == ps[0].pages + Flatten(rest);
      CopiedConcat(data, ListsStart(|sizes|) + pos, n, |Flatten(rest)|);
    } else {
      assert Copied(data, ListsStart(|sizes|) + pos, 0) == [];
    }
  }

  /**
   * A successful split: a count of at least one stream, one record per
   * stream in order, stream i receiving count_pages(size_i) page numbers, and
   * all page numbers copied consecutively from right after the size table.
   * As written the copies may end up to 8 bytes past the image; with the
   * corrected bound they end inside it and are the image's own words.
   */
  lemma RootStreamSplit(data: seq<byte>, pageSize: int, b: Bound)
    requires 4 <= |data|
    requires RootStreamOf(data, pageSize, b).Some?
    ensures var rs := RootStreamOf(data, pageSize, b).value;
      var max := MaxSize(|data|, rs.numStreams);
      var all := Flatten(rs.streams);
      rs.numStreams >= 1 && rs.numStreams == ToInt32(Word32At(data, 0))
      && |rs.streams| == rs.numStreams
      && (forall i :: 0 <= i < rs.numStreams ==> Describes(rs.streams[i], SizeAt(data, max, i), pageSize))
      && all == Copied(data, ListsStart(rs.numStreams), |all|)
      && (all != [] ==> ListsStart(rs.numStreams) + 4 * |all| <= |data| + Overrun(b))
  {
    var count := ToInt32(Word32At(data, 0));
    var max := MaxSize(|data|, count);
    StreamsFromCounts(data, Sizes(data, count, max), 0, 0, pageSize, b);
    StreamsFromWords(data, Sizes(data, count, max), 0, 0, pageSize, b);
  }

  /** A successful split is the page-list loop's result over the size table. */
  lemma RootStreamParts(data: seq<byte>, pageSize: int, b: Bound)
    requires 4 <= |data|
    requires RootStreamOf(data, pageSize, b).Some?
    ensures var rs := RootStreamOf(data, pageSize, b).value;
      var max := MaxSize(|data|, rs.numStreams);
      rs.numStreams == ToInt32(Word32At(data, 0)) && max <= |data|
      && StreamsFrom(data, Sizes(data, rs.numStreams, max), 0, 0, pageSize, b) == Some(rs.streams)
  {
  }

  /** A size word of 0xffffffff is an empty stream. */
  lemma UnusedStreamIsEmpty(data: seq<byte>, pageSize: int, b: Bound, i: nat)
    requires 4 <= |data|
    requires RootStreamOf(data, pageSize, b).Some?
    requires i < |RootStreamOf(data, pageSize, b).value.streams|
    requires 8 + 4 * i < MaxSize(|data|, RootStreamOf(data, pageSize, b).value.numStreams)
    requires Word32At(data, 4 + 4 * i) == UT32_MAX
    ensures RootStreamOf(data, pageSize, b).value.streams[i] == Page(0, [])
  {
    var rs := RootStreamOf(data, pageSize, b).value;
    var max := MaxSize(|data|, rs.numStreams);
    RootStreamParts(data, pageSize, b);
    var sizes := Sizes(data, rs.numStreams, max);
    StreamsFromCounts(data, sizes, 0, 0, pageSize, b);
    assert sizes[i] == 0;
    assert Describes(rs.streams[i], 0, pageSize);
    CountPagesIsCeiling(0, pageSize);
    assert |rs.streams[i].pages| == 0;
  }

  /** A stream count below one fails: the bound then exceeds the image size. */
  lemma NoStreamsFails(data: seq<byte>, pageSize: int, b: Bound)
    requires 4 <= |data|
    requires ToInt32(Word32At(data, 0)) < 1
    ensures RootStreamOf(data, pageSize, b) == None
  {
  }

  /** A stream whose count is negative makes the split fail, whatever follows. */
  lemma {:induction false} NegativeCountFails(data: seq<byte>, sizes: seq<int>, i: nat, pos: nat, pageSize: int, b: Bound, k: nat)
    requires i <= k < |sizes|
    requires CountPages(sizes[k], pageSize) < 0
    ensures StreamsFrom(data, sizes, i, pos, pageSize, b) == None
    decreases k - i
  {
    if i < k {
      var n := CountPages(sizes[i], pageSize);
      if n == 0 {
        NegativeCountFails(data, sizes, i + 1, pos, pageSize, b, k);
      } else if n > 0 {
        NegativeCountFails(data, sizes, i + 1, pos + 4 * n, pageSize, b, k);
      }
    }
  }

  /** The 16-byte image of one stream of 16 bytes in 4-byte pages. */
  function OverrunImage(): seq<byte>
  {
    [1, 0, 0, 0, 16, 0, 0, 0, 0, 0, 0, 0, 0, 0, 0, 0]
  }

  /** In that image the check as written lets the copy read bytes 8..24, 8 past the end. */
  lemma CopyOverrunAsWritten()
    ensures var data := OverrunImage();
      var max := MaxSize(|data|, 1);
      var n := CountPages(SizeAt(data, max, 0), 4);
      n == 4 && 0 + n <= max && CopyFitsAsWritten(|data|, 1, 0, 4 * n)
      && ListsStart(1) + 4 * n == |data| + 8
  {
    var data := OverrunImage();
    assert SizeAt(data, 16, 0) == 16;
    assert CDiv(16, 4) == 4;
  }

  /** So the split as written succeeds on that image, while the corrected split refuses it. */
  lemma OverrunSplit()
    ensures RootStreamOf(OverrunImage(), 4, AsWritten) == Some(RootStream(1, [Page(16, [0, 0, 0, 0])]))
    ensures RootStreamOf(OverrunImage(), 4, Corrected) == None
  {
    var data := OverrunImage();
    assert Word32At(data, 0) == 1;
    assert ToInt32(1) == 1;
    assert MaxSize(16, 1) == 16;
    assert SizeAt(data, 16, 0) == 16;
    assert Sizes(data, 1, 16) == [16];
    assert CDiv(16, 4) == 4;
    assert CountPages(16, 4) == 4;
    assert Copied(data, 8, 4) == [0, 0, 0, 0];
    assert StreamsFrom(data, [16], 1, 16, 4, AsWritten) == Some([]);
    assert CopyAllowed(AsWritten, 16, 1, 0, 16);
    assert ListsStart(1) == 8;
    assert StreamsFrom(data, [16], 0, 0, 4, AsWritten)
        == Prepend([Page(16, Copied(data, 8, 4))], StreamsFrom(data, [16], 1, 16, 4, AsWritten));
    assert [Page(16, [0, 0, 0, 0])] + [] == [Page(16, [0, 0, 0, 0])];
  }

  // ---------------------------------------------------------------------
  // init_pdb7_root_stream

  /** The size-table loop: fills calloc'd slots while the bound lets it read. */
  method ReadSizes(data: seq<byte>, count: nat, max: int) returns (sizes: array<int>)
    requires max <= |data|
    ensures fresh(sizes)
    ensures sizes[..] == Sizes(data, count, max)
  {
    sizes := new int[count](_ => 0);
    var i := 0;
    while i < count && 8 + 4 * i < max
      invariant i <= count
      invariant forall k :: 0 <= k < i ==> sizes[k] == SizeAt(data, max, k)
      invariant forall k :: i <= k < count ==> sizes[k] == 0
    {
      var size := ToInt32(Word32At(data, 4 + 4 * i));
      if size == -1 {
        size := 0;
      }
      sizes[i] := size;
      i := i + 1;
    }
    assert forall k :: i <= k < count ==> SizeAt(data, max, k) == 0;
  }

  /** The page-list loop: one record per stream, appended in order, with the bound as written. */
  method SplitPages(data: seq<byte>, sizes: seq<int>, pageSize: int) returns (r: Option<seq<Page>>)
    ensures r == StreamsFrom(data, sizes, 0, 0, pageSize, AsWritten)
  {
    var max := MaxSize(|data|, |sizes|);
    var list: seq<Page> := [];
    var pos: nat := 0;
    var i := 0;
    assert Prepend(list, StreamsFrom(data, sizes, 0, 0, pageSize, AsWritten)) == StreamsFrom(data, sizes, 0, 0, pageSize, AsWritten)
      by { PrependNothing(StreamsFrom(data, sizes, 0, 0, pageSize, AsWritten)); }
    while i < |sizes|
      invariant i <= |sizes|
      invariant StreamsFrom(data, sizes, 0, 0, pageSize, AsWritten) == Prepend(list, StreamsFrom(data, sizes, i, pos, pageSize, AsWritten))
    {
      var n := CountPages(sizes[i], pageSize);
      if pos + n > max || n < 0 {
        return None;
      }
      var page: Page;
      if n != 0 {
        if pos + 4 * n > max {
          return None;
        }
        page := Page(sizes[i], Copied(data, ListsStart(|sizes|) + pos, n));
        pos := pos + 4 * n;
      } else {
        page := Page(0, []);
      }
      PrependTwice(list, page, StreamsFrom(data, sizes, i + 1, pos, pageSize, AsWritten));
      list := list + [page];
      i := i + 1;
    }
    assert list + [] == list;
    r := Some(list);
  }

  /** init_pdb7_root_stream on an image already read from the container. */
  method InitRootStream(data: seq<byte>, pageSize: int) returns (r: Option<RootStream>)
    requires 4 <= |data|
    ensures r == RootStreamOf(data, pageSize, AsWritten)
  {
    var count := ToInt32(Word32At(data, 0));
    var max := MaxSize(|data|, count);
    if max > |data| || count < 0 || max <= 0 {
      return None;
    }
    var sizes := ReadSizes(data, count, max);
    var streams := SplitPages(data, sizes[..], pageSize);
    if streams.None? {
      return None;
    }
    r := Some(RootStream(count, streams.value));
  }
}
