// The header of an index file: its bytes, and the size of a page's slots.
module IxFileHdr {
  const PAGE_SIZE := 4096
  const IX_MAX_COL_LEN := 512
  const SIZEOF_PAGE_HDR := 24
  const SIZEOF_RID := 8
  const SIZEOF_INT := 4

  newtype byte = x: int | 0 <= x < 256

  /** What an index file header says. Column types are stored as 32-bit numbers. */
  datatype Header = Header(firstFreePageNo: int, numPages: int, rootPage: int, colTypes: seq<int>, colLens: seq<int>,
                           colTotLen: int, btreeOrder: int, keysSize: int, firstLeaf: int, lastLeaf: int)

  predicate Int32(x: int) { -0x8000_0000 <= x < 0x8000_0000 }

  predicate HeaderOk(h: Header) {
    && |h.colTypes| == |h.colLens| && Int32(TotLen(|h.colTypes|))
    && AllInt32(Words(h))
  }

  /** update_tot_len */
  function TotLen(colNum: nat): nat { SIZEOF_INT * 4 + SIZEOF_INT * 6 + SIZEOF_INT * colNum + SIZEOF_INT * colNum }

  /** The fields in the order in which they are written. */
  function Words(h: Header): (w: seq<int>)
    ensures |h.colTypes| == |h.colLens| ==> SIZEOF_INT * |w| == TotLen(|h.colTypes|)
  {
    Head(h) + h.colTypes + h.colLens + Tail(h)
  }

  function Head(h: Header): seq<int> { [TotLen(|h.colTypes|), h.firstFreePageNo, h.numPages, h.rootPage, |h.colTypes|] }

  function Tail(h: Header): seq<int> { [h.colTotLen, h.btreeOrder, h.keysSize, h.firstLeaf, h.lastLeaf] }

  // ----- a 32-bit number as four bytes, the lowest first -----

  function Unsigned(x: int): nat
    requires Int32(x)
  {
    if x < 0 then x + 0x1_0000_0000 else x
  }

  function ByteOf(x: int, i: nat): byte
    requires Int32(x) && i < 4
  {
    var u := Unsigned(x);
    (match i case 0 => u % 256 case 1 => u / 256 % 256 case 2 => u / 65536 % 256 case _ => u / 16777216) as byte
  }

  function IntAt(buf: seq<byte>, offset: nat): int
    requires offset + 4 <= |buf|
  {
    var u := buf[offset] as int + 256 * buf[offset + 1] as int + 65536 * buf[offset + 2] as int
             + 16777216 * buf[offset + 3] as int;
    if u >= 0x8000_0000 then u - 0x1_0000_0000 else u
  }

  lemma BytesOfInt(x: int, buf: seq<byte>, offset: nat)
    requires Int32(x) && offset + 4 <= |buf| && forall i | 0 <= i < 4 :: buf[offset + i] == ByteOf(x, i)
    ensures IntAt(buf, offset) == x
  {
    assert buf[offset + 0] == ByteOf(x, 0) && buf[offset + 1] == ByteOf(x, 1);
    assert buf[offset + 2] == ByteOf(x, 2) && buf[offset + 3] == ByteOf(x, 3);
    Digits(Unsigned(x));
  }

  lemma Digits(u: nat)
    ensures u == u % 256 + 256 * (u / 256 % 256) + 65536 * (u / 65536 % 256) + 16777216 * (u / 16777216)
  {
    assert u / 65536 == u / 256 / 256 && u / 16777216 == u / 256 / 256 / 256;
  }

  /** The first byte is the number modulo 256, and each byte behind it the first of the quotient by 256, rounded down:
      the lowest byte comes first. */
  lemma LowestFirst(x: int, i: nat)
    requires Int32(x) && i < 3
    ensures ByteOf(x, 0) as int == x % 256
    ensures Int32(x / 256) && ByteOf(x, i + 1) == ByteOf(x / 256, i)
  {
    var u, v := Unsigned(x), Unsigned(x / 256);
    assert u % 256 == x % 256;
    if x < 0 { assert v == u / 256 + 0xff00_0000; }
    assert v % 0x100_0000 == u / 256;
    QuotientDigits(u / 256, v);
    match i
    case 0 =>
    case 1 => assert u / 65536 == u / 256 / 256;
    case 2 => assert u / 16777216 == u / 256 / 256 / 256;
  }

  /** The three lower bytes are those of the number modulo 2^24. */
  lemma QuotientDigits(q: nat, v: nat)
    requires v % 0x100_0000 == q
    ensures v % 256 == q % 256 && v / 256 % 256 == q / 256 % 256 && v / 65536 % 256 == q / 65536
  {
    var h := v / 0x100_0000;
    assert v == q + 0x100_0000 * h;
    assert v / 256 == q / 256 + 65536 * h;
    assert v / 65536 == q / 65536 + 256 * h;
  }

  /** Four bytes are those of the number read from them. */
  lemma BytesRead(buf: seq<byte>, offset: nat, i: nat)
    requires offset + 4 <= |buf| && i < 4
    ensures Int32(IntAt(buf, offset)) && buf[offset + i] == ByteOf(IntAt(buf, offset), i)
  {
    var a, b, c, d := buf[offset] as int, buf[offset + 1] as int, buf[offset + 2] as int, buf[offset + 3] as int;
    FromDigits(a, b, c, d);
  }

  lemma FromDigits(a: nat, b: nat, c: nat, d: nat)
    requires a < 256 && b < 256 && c < 256 && d < 256
    ensures var u := a + 256 * b + 65536 * c + 16777216 * d;
      u % 256 == a && u / 256 % 256 == b && u / 65536 % 256 == c && u / 16777216 == d
  {
    var u := a + 256 * b + 65536 * c + 16777216 * d;
    assert u / 256 == b + 256 * c + 65536 * d;
    assert u / 65536 == c + 256 * d;
  }

  /** memcpy of one int. */
  method PutInt(dest: array<byte>, offset: nat, x: int)
    requires offset + 4 <= dest.Length && Int32(x)
    modifies dest
    ensures IntAt(dest[..], offset) == x
    ensures forall i | 0 <= i < dest.Length && !(offset <= i < offset + 4) :: dest[i] == old(dest[i])
  {
    dest[offset], dest[offset + 1] := ByteOf(x, 0), ByteOf(x, 1);
    dest[offset + 2], dest[offset + 3] := ByteOf(x, 2), ByteOf(x, 3);
    BytesOfInt(x, dest[..], offset);
  }

  /** The first n words of the buffer are those given. */
  predicate HasWords(buf: seq<byte>, words: seq<int>, n: nat)
    requires n <= |words|
  {
    4 * n <= |buf| && forall i | 0 <= i < n :: IntAt(buf, 4 * i) == words[i]
  }

  /** Writing word n after the words before it. */
  method PutWord(dest: array<byte>, ghost words: seq<int>, n: nat, x: int)
    requires n < |words| && words[n] == x && Int32(x) && 4 * (n + 1) <= dest.Length && HasWords(dest[..], words, n)
    modifies dest
    ensures HasWords(dest[..], words, n + 1)
    ensures forall i | 4 * (n + 1) <= i < dest.Length :: dest[i] == old(dest[i])
  {
    ghost var before := dest[..];
    PutInt(dest, 4 * n, x);
    forall i | 0 <= i < n ensures IntAt(dest[..], 4 * i) == words[i] {
      assert IntAt(before, 4 * i) == words[i];
    }
  }

  /** The loop over the column types, and the one over the column lengths. */
  method PutAll(dest: array<byte>, ghost words: seq<int>, n: nat, xs: seq<int>)
    requires WordsFrom(words, n, xs) && AllInt32(words) && 4 * (n + |xs|) <= dest.Length && HasWords(dest[..], words, n)
    modifies dest
    ensures HasWords(dest[..], words, n + |xs|)
    ensures forall i | 4 * (n + |xs|) <= i < dest.Length :: dest[i] == old(dest[i])
  {
    for k := 0 to |xs|
      invariant HasWords(dest[..], words, n + k)
      invariant forall i | 4 * (n + k) <= i < dest.Length :: dest[i] == old(dest[i])
    {
      assert words[n + k] == xs[k];
      PutWord(dest, words, n + k, xs[k]);
    }
  }

  /** The words with the columns in between. */
  lemma WordsAt(h: Header)
    requires |h.colTypes| == |h.colLens|
    ensures var w, n := Words(h), |h.colTypes|;
      && w[0] == TotLen(n) && w[1] == h.firstFreePageNo && w[2] == h.numPages && w[3] == h.rootPage && w[4] == n
      && w[5 + 2 * n] == h.colTotLen && w[6 + 2 * n] == h.btreeOrder && w[7 + 2 * n] == h.keysSize
      && w[8 + 2 * n] == h.firstLeaf && w[9 + 2 * n] == h.lastLeaf
    ensures forall i {:trigger h.colTypes[i]} | 0 <= i < |h.colTypes| :: Words(h)[5 + i] == h.colTypes[i]
    ensures forall i {:trigger h.colLens[i]} | 0 <= i < |h.colLens| :: Words(h)[5 + |h.colTypes| + i] == h.colLens[i]
  {
  }

  /** xs are the words from number n on. */
  predicate WordsFrom(words: seq<int>, n: nat, xs: seq<int>) {
    n + |xs| <= |words| && forall i {:trigger xs[i]} | 0 <= i < |xs| :: words[n + i] == xs[i]
  }

  predicate AllInt32(words: seq<int>) {
    forall i | 0 <= i < |words| :: Int32(words[i])
  }

  lemma WordsParts(h: Header)
    requires |h.colTypes| == |h.colLens|
    ensures var n := |h.colTypes|;
      && WordsFrom(Words(h), 0, Head(h))
      && WordsFrom(Words(h), 5, h.colTypes) && WordsFrom(Words(h), 5 + n, h.colLens)
      && WordsFrom(Words(h), 5 + 2 * n, Tail(h))
  {
    WordsAt(h);
  }

  /** serialize: offset is where the next field would go; it ends at the length that was announced. */
  method Serialize(h: Header, dest: array<byte>) returns (offset: nat)
    requires HeaderOk(h) && TotLen(|h.colTypes|) <= dest.Length
    modifies dest
    ensures offset == TotLen(|h.colTypes|)
    ensures HasWords(dest[..], Words(h), |Words(h)|)
    ensures forall i | offset <= i < dest.Length :: dest[i] == old(dest[i])
  {
    var n := |h.colTypes|;
    ghost var w := Words(h);
    WordsParts(h);
    PutAll(dest, w, 0, [TotLen(n), h.firstFreePageNo, h.numPages, h.rootPage, n]);
    PutAll(dest, w, 5, h.colTypes);
    PutAll(dest, w, 5 + n, h.colLens);
    PutAll(dest, w, 5 + 2 * n, [h.colTotLen, h.btreeOrder, h.keysSize, h.firstLeaf, h.lastLeaf]);
    offset := 4 * (10 + 2 * n);
  }

  /** A run of fields, and each loop of deserialize. */
  method GetAll(src: array<byte>, n: nat, count: nat) returns (xs: seq<int>)
    requires 4 * (n + count) <= src.Length
    ensures |xs| == count && ReadFrom(src[..], n, xs)
  {
    xs := [];
    for k := 0 to count
      invariant |xs| == k && ReadFrom(src[..], n, xs)
    {
      xs := xs + [IntAt(src[..], 4 * (n + k))];
    }
  }

  /** deserialize. The number of columns it finds says how much there is to read. */
  method Deserialize(src: array<byte>) returns (h: Header, totLen: int, offset: nat)
    requires 20 <= src.Length && 0 <= IntAt(src[..], 16) && TotLen(IntAt(src[..], 16)) <= src.Length
    ensures forall g | HeaderOk(g) && HasWords(src[..], Words(g), |Words(g)|) :: h == g && totLen == offset
    ensures totLen == IntAt(src[..], 0) && offset == TotLen(IntAt(src[..], 16))
  {
    var first := GetAll(src, 0, 5);
    assert first[4] == IntAt(src[..], 4 * (0 + 4)) && first[0] == IntAt(src[..], 4 * (0 + 0));
    var colNum := first[4];
    var types := GetAll(src, 5, colNum);
    var lens := GetAll(src, 5 + colNum, colNum);
    var last := GetAll(src, 5 + 2 * colNum, 5);
    totLen := first[0];
    h := Header(first[1], first[2], first[3], types, lens, last[0], last[1], last[2], last[3], last[4]);
    offset := 4 * (10 + 2 * colNum);
    forall g | HeaderOk(g) && HasWords(src[..], Words(g), |Words(g)|) ensures h == g && totLen == offset {
      ReadsBack(src[..], g, first, types, lens, last, colNum);
    }
  }

  /** The words of the buffer from number n on. */
  predicate ReadFrom(buf: seq<byte>, n: nat, xs: seq<int>) {
    4 * (n + |xs|) <= |buf| && forall i {:trigger xs[i]} | 0 <= i < |xs| :: xs[i] == IntAt(buf, 4 * (n + i))
  }

  lemma SameWords(buf: seq<byte>, words: seq<int>, n: nat, xs: seq<int>, ys: seq<int>)
    requires HasWords(buf, words, |words|) && ReadFrom(buf, n, xs) && WordsFrom(words, n, ys) && |xs| == |ys|
    ensures xs == ys
  {
    forall i | 0 <= i < |xs| ensures xs[i] == ys[i] { assert IntAt(buf, 4 * (n + i)) == words[n + i]; }
  }

  lemma ReadsBack(buf: seq<byte>, g: Header, first: seq<int>, types: seq<int>, lens: seq<int>, last: seq<int>, n: nat)
    requires HeaderOk(g) && HasWords(buf, Words(g), |Words(g)|)
    requires |first| == 5 && ReadFrom(buf, 0, first) && first[4] == n
    requires |types| == n && ReadFrom(buf, 5, types) && |lens| == n && ReadFrom(buf, 5 + n, lens)
    requires |last| == 5 && ReadFrom(buf, 5 + 2 * n, last)
    ensures first[0] == TotLen(n) && |g.colTypes| == n
    ensures Header(first[1], first[2], first[3], types, lens, last[0], last[1], last[2], last[3], last[4]) == g
  {
    WordsParts(g);
    assert first == Head(g) by { SameWords(buf, Words(g), 0, first, Head(g)); }
    assert types == g.colTypes by { SameWords(buf, Words(g), 5, types, g.colTypes); }
    assert lens == g.colLens by { SameWords(buf, Words(g), 5 + n, lens, g.colLens); }
    assert last == Tail(g) by { SameWords(buf, Words(g), 5 + 2 * n, last, Tail(g)); }
  }

  /** Writing a header and reading it back gives the same header, for any number of columns that fits the buffer. */
  method WriteAndRead(h: Header, page: array<byte>) returns (g: Header)
    requires HeaderOk(h) && TotLen(|h.colTypes|) <= page.Length
    modifies page
    ensures g == h
  {
    var written := Serialize(h, page);
    WordsAt(h);
    assert IntAt(page[..], 4 * 4) == Words(h)[4];
    var totLen, offset;
    g, totLen, offset := Deserialize(page);
    assert totLen == offset == written;
  }

  // ----- page sizes -----

  /** btree_order_ for keys of the given length. */
  function BtreeOrder(colTotLen: nat): int { (PAGE_SIZE - SIZEOF_PAGE_HDR) / (colTotLen + SIZEOF_RID) - 1 }

  /** get_max_size: the keys of a node just before it is split. */
  function MaxSize(colTotLen: nat): int { BtreeOrder(colTotLen) + 1 }

  function KeysSize(colTotLen: nat): int { MaxSize(colTotLen) * colTotLen }

  /** Every key length create_index accepts gives an order above 2, so a node holds at least four keys, and the keys and
      as many rids fit a page, and one more would not. */
  lemma SlotsFit(colTotLen: nat)
    requires 0 < colTotLen <= IX_MAX_COL_LEN
    ensures BtreeOrder(colTotLen) > 2 && MaxSize(colTotLen) >= 4
    ensures SIZEOF_PAGE_HDR + KeysSize(colTotLen) + MaxSize(colTotLen) * SIZEOF_RID <= PAGE_SIZE
    ensures SIZEOF_PAGE_HDR + (MaxSize(colTotLen) + 1) * (colTotLen + SIZEOF_RID) > PAGE_SIZE
  {
    var q, d := MaxSize(colTotLen), colTotLen + SIZEOF_RID;
    assert 4072 < (q + 1) * d by { OneMore(q, d); }
    assert q * d <= 4072;
    assert q * d == q * colTotLen + q * SIZEOF_RID;
    AtLeastFour(4072, d);
  }

  lemma AtLeastFour(a: nat, d: nat)
    requires d > 0 && 4 * d <= a
    ensures a / d >= 4
  {
    var q := a / d;
    assert a == q * d + a % d;
    if q < 4 { Multiples(q, 3, d); }
  }

  lemma Multiples(q: nat, k: nat, d: nat)
    requires q <= k
    ensures q * d <= k * d
  {
  }

  lemma OneMore(p: nat, d: nat)
    ensures (p + 1) * d == p * d + d
  {
  }

  lemma Quotient(a: nat, d: nat, q: nat)
    requires d > 0 && q * d <= a
    ensures a / d >= q
  {
    var p := a / d;
    OneMore(p, d);
    if p < q { Multiples(p + 1, q, d); }
  }

  /** The longer the keys, the fewer of them fit a node. */
  lemma MaxSizeFalls(a: nat, b: nat)
    requires 0 < a <= b <= IX_MAX_COL_LEN
    ensures MaxSize(a) >= MaxSize(b)
  {
    var x, y, q := a + SIZEOF_RID, b + SIZEOF_RID, MaxSize(b);
    Multiples(x, y, q);
    assert q * y <= 4072;
    Quotient(4072, x, q);
  }

  /** Between 7 and 452 keys; 339 for an index on one INT column. */
  lemma NodeSizes(colTotLen: nat)
    requires 0 < colTotLen <= IX_MAX_COL_LEN
    ensures 7 == MaxSize(IX_MAX_COL_LEN) <= MaxSize(colTotLen) <= MaxSize(1) == 452 && MaxSize(4) == 339
  {
    MaxSizeFalls(colTotLen, IX_MAX_COL_LEN);
    MaxSizeFalls(1, colTotLen);
  }

  /** A full internal node has one child more than keys. The slot for it is inside the page exactly when dividing the
      page leaves eight bytes. */
  lemma ExtraChildFits(colTotLen: nat)
    requires 0 < colTotLen <= IX_MAX_COL_LEN
    ensures SIZEOF_PAGE_HDR + KeysSize(colTotLen) + (MaxSize(colTotLen) + 1) * SIZEOF_RID <= PAGE_SIZE
       <==> (PAGE_SIZE - SIZEOF_PAGE_HDR) % (colTotLen + SIZEOF_RID) >= SIZEOF_RID
  {
    var q, d := MaxSize(colTotLen), colTotLen + SIZEOF_RID;
    assert q * d + 4072 % d == 4072;
    assert q * d == q * colTotLen + q * SIZEOF_RID;
  }

  /** For an index on one INT column it is not. */
  lemma IntKeyHasNoExtraChild()
    ensures SIZEOF_PAGE_HDR + KeysSize(4) + (MaxSize(4) + 1) * SIZEOF_RID > PAGE_SIZE
  {
    ExtraChildFits(4);
  }
}
