/** The inode and zone bitmaps: the wraparound bit search and its hints. */
module Bitmaps {
  import opened Common
  import opened Words16

  datatype MapKind = IMAP | ZMAP

  type Maps = seq<seq<bv16>>

  /** The number of a bit in a row of blocks of `words` words each. */
  lemma RowOfBits(r: nat, i: nat, k: nat, perBlock: nat, words: nat)
    requires 0 < perBlock <= 16 * words && i < words && k < 16
    ensures
      var b := (r * words + i) * 16 + k;
      && (perBlock == 16 * words ==> b / perBlock == r && (b % perBlock) / 16 == i)
      && (b < perBlock ==> r == 0 && b / perBlock == 0 && (b % perBlock) / 16 == i)
      && b % 16 == k
  {
    InRow(r, i, k, 16 * words, words);
    if perBlock == 16 * words || (r * words + i) * 16 + k < perBlock {
      InRow(r, i, k, perBlock, words);
    }
  }

  lemma InRow(r: nat, i: nat, k: nat, d: nat, words: nat)
    requires 0 < d <= 16 * words && i < words && k < 16
    requires d == 16 * words || (r * words + i) * 16 + k < d
    ensures
      var b := (r * words + i) * 16 + k;
      && b / d == r && (b % d) / 16 == i && b % 16 == k && (d != 16 * words ==> r == 0)
  {
    var w, m := i * 16 + k, 16 * words;
    assert (r * words + i) * 16 + k == r * m + w;
    MulGrows(r, m);
    CutAt(r, i, k, d, m);
  }

  lemma CutAt(r: nat, i: nat, k: nat, d: nat, m: nat)
    requires 0 < d <= m && i * 16 + k < m && k < 16 && (d == m || (r == 0 && i * 16 + k < d))
    ensures (r * m + (i * 16 + k)) / d == r && ((r * m + (i * 16 + k)) % d) / 16 == i
  {
    DivModUnique(r * m + (i * 16 + k), d, r, i * 16 + k);
  }

  /** A bit of a map: its block within the map, its word in the block, its bit in the word. */
  datatype Place = Place(block: nat, word: nat, bit: nat)

  /** Where one map lies among the map blocks, and how its bits are numbered.
      `perBlock` is the step from the numbers of one block to those of the next. */
  datatype Layout = Layout(start: nat, blocks: nat, bits: nat, perBlock: nat, words: nat) {

    ghost predicate Valid() {
      && 0 < perBlock
      && perBlock % 16 == 0
      && perBlock <= 16 * words
      && 0 < blocks
      && bits <= blocks * perBlock
    }

    /** The blocks of the map hold all its bits. */
    ghost predicate Sized() {
      && 0 < perBlock
      && perBlock % 16 == 0
      && perBlock <= 16 * words
      && 0 < blocks
      && bits <= blocks * (16 * words)
    }

    /** All bits are numbered within one step, or a step is what a block really holds. */
    ghost predicate Fits() {
      bits <= perBlock || perBlock == 16 * words
    }

    lemma FitsIsValid()
      ensures Sized() && Fits() <==> Valid() && Fits()
    {
      if Valid() && Fits() {
        MulAtMost(perBlock, 16 * words, blocks);
        assert blocks * perBlock == perBlock * blocks && blocks * (16 * words) == (16 * words) * blocks;
      } else if Sized() && Fits() {
        MulGrows(blocks, perBlock);
      }
    }

    /** The number the search gives to a bit. */
    function Number(block: nat, word: nat, bit: nat): nat {
      block * perBlock + word * 16 + bit
    }

    function Block(b: nat): nat
      requires 0 < perBlock
    {
      b / perBlock
    }

    function Word(b: nat): nat
      requires 0 < perBlock
    {
      (b % perBlock) / 16
    }

    ghost predicate Shape(maps: seq<seq<bv16>>) {
      && start + blocks <= |maps|
      && forall i | start <= i < start + blocks :: |maps[i]| == words
    }

    ghost predicate IsSet(maps: seq<seq<bv16>>, b: nat)
      requires Valid() && Shape(maps) && b < bits
    {
      LocateInRange(b);
      Bit(maps[start + Block(b)][Word(b)], b % 16)
    }

    ghost function Marks(maps: seq<seq<bv16>>): set<nat>
      requires Valid() && Shape(maps)
    {
      set b: nat | b < bits && IsSet(maps, b)
    }

    ghost function All(): set<nat> {
      set b: nat {:trigger Block(b)} | b < bits
    }

    lemma LocateInRange(b: nat)
      requires Valid() && b < bits
      ensures Block(b) < blocks && Word(b) < words
      ensures Number(Block(b), Word(b), b % 16) == b
    {
      DivMod(b, perBlock);
      DivLess(b, perBlock, blocks);
      ModOfMod(b, perBlock);
    }

    /** Under `Fits`, the place the search found is the place `free_bit` looks at. */
    lemma LocateNumber(block: nat, word: nat, bit: nat)
      requires Valid() && Fits()
      requires block < blocks && word < words && bit < 16
      requires Number(block, word, bit) < bits
      ensures Block(Number(block, word, bit)) == block
      ensures Word(Number(block, word, bit)) == word
      ensures Number(block, word, bit) % 16 == bit
    {
      var b := Number(block, word, bit);
      MulGrows(block, perBlock);
      assert word * 16 + bit < perBlock;
      DivModUnique(b, perBlock, block, word * 16 + bit);
      ModOfMod(b, perBlock);
    }

    /** In a map that fits, bit `k` of word `i` of block `r` is the number of that bit in the
        blocks read in a row. */
    lemma SetMeans(maps: Maps, r: nat, i: nat, k: nat)
      requires Valid() && Fits() && Shape(maps) && i < words && k < 16 && (r * words + i) * 16 + k < bits
      ensures r < blocks && start + blocks <= |maps| && |maps[start + r]| == words
      ensures (r * words + i) * 16 + k in Marks(maps) <==> maps[start + r][i] & (1 << k) != 0
    {
      RowOfBits(r, i, k, perBlock, words);
      var b := (r * words + i) * 16 + k;
      BitMeans(maps, b, r, i, k);
    }

    lemma BitMeans(maps: Maps, b: nat, r: nat, i: nat, k: nat)
      requires Valid() && Shape(maps) && b < bits && Block(b) == r && Word(b) == i && b % 16 == k
      ensures r < blocks && i < words && (b in Marks(maps) <==> maps[start + r][i] & (1 << k) != 0)
    {
      LocateInRange(b);
      MaskIsShift(k);
    }

    /** The maps with the bit of number `b` switched on or off, as the word store does it. */
    function Switch(maps: seq<seq<bv16>>, b: nat, on: bool): seq<seq<bv16>>
      requires 0 < perBlock && start + Block(b) < |maps| && Word(b) < |maps[start + Block(b)]|
    {
      var row, word := start + Block(b), Word(b);
      var w := maps[row][word];
      maps[row := maps[row][word := Store(w, Mask(b % 16), on)]]
    }

    lemma SamePlace(b: nat, c: nat)
      requires Valid() && b < bits && c < bits
      ensures Block(b) == Block(c) && Word(b) == Word(c) && b % 16 == c % 16 <==> b == c
    {
      LocateInRange(b);
      LocateInRange(c);
    }

    lemma SwitchAt(maps: seq<seq<bv16>>, b: nat, on: bool, c: nat)
      requires Valid() && Shape(maps) && b < bits && c < bits
      requires Block(b) < blocks && Word(b) < words
      ensures Shape(Switch(maps, b, on))
      ensures IsSet(Switch(maps, b, on), c) <==> if c == b then on else IsSet(maps, c)
    {
      SamePlace(b, c);
      LocateInRange(c);
      var w := maps[start + Block(b)][Word(b)];
      if b % 16 == c % 16 {
        StoreBitSame(w, b % 16, on);
      } else {
        StoreBitOther(w, b % 16, on, c % 16);
      }
    }

    /** Storing a word that differs in the one bit `b` changes membership of `b` alone. */
    lemma SwitchMarks(maps: seq<seq<bv16>>, b: nat, on: bool)
      requires Valid() && Shape(maps) && b < bits
      requires Block(b) < blocks && Word(b) < words
      ensures Shape(Switch(maps, b, on))
      ensures Marks(Switch(maps, b, on)) == if on then Marks(maps) + {b} else Marks(maps) - {b}
    {
      forall c: nat | c < bits
        ensures Shape(Switch(maps, b, on))
        ensures IsSet(Switch(maps, b, on), c) <==> if c == b then on else IsSet(maps, c)
      {
        SwitchAt(maps, b, on, c);
      }
    }

    /** Blocks outside the map do not matter to it. */
    lemma MarksFrame(maps: seq<seq<bv16>>, maps': seq<seq<bv16>>)
      requires Valid() && Shape(maps)
      requires |maps'| == |maps|
      requires forall i | start <= i < start + blocks :: maps'[i] == maps[i]
      ensures Shape(maps') && Marks(maps') == Marks(maps)
    {
      forall c: nat | c < bits
        ensures IsSet(maps', c) <==> IsSet(maps, c)
      {
        LocateInRange(c);
      }
    }

    // ----- the search and the freeing of a bit, on any map blocks

    /** Where the scan of a block stops: at the first word with a clear bit, unless that bit's
        number is past the end of the map. */
    function ScanRow(row: seq<bv16>, block: nat, word: nat): Option<Place>
      decreases |row| - word
    {
      if word >= |row| then None
      else if row[word] == 0xFFFF then ScanRow(row, block, word + 1)
      else
        var p := Place(block, word, LowZero(row[word], 0));
        if NumberOf(p) >= bits then None else Some(p)
    }

    function NumberOf(p: Place): nat {
      Number(p.block, p.word, p.bit)
    }

    /** The scan of up to `bcount` blocks. */
    function Search(maps: Maps, block: nat, word: nat, bcount: nat): Option<Place>
      requires 0 < blocks && start + blocks <= |maps| && start + block < |maps|
      decreases bcount
    {
      var r := ScanRow(maps[start + block], block, word);
      if r.Some? || bcount <= 1 then r
      else Search(maps, if block + 1 >= blocks then 0 else block + 1, 0, bcount - 1)
    }

    function Origin(origin: nat): nat {
      if origin >= bits then 0 else origin
    }

    ghost predicate Readable(maps: Maps, origin: nat) {
      0 < perBlock && 0 < blocks && start + blocks <= |maps| && start + Block(Origin(origin)) < |maps|
    }

    /** What the search from `origin` finds, once around and back into the block it started in. */
    function Find(maps: Maps, origin: nat): Option<Place>
      requires Readable(maps, origin)
    {
      Search(maps, Block(Origin(origin)), Word(Origin(origin)), blocks + 1)
    }

    predicate InMaps(maps: Maps, p: Place) {
      start + p.block < |maps| && p.word < |maps[start + p.block]| && p.bit < 16
    }

    predicate BitAt(maps: Maps, p: Place)
      requires InMaps(maps, p)
    {
      Bit(maps[start + p.block][p.word], p.bit)
    }

    function StoreAt(maps: Maps, p: Place, on: bool): Maps
      requires InMaps(maps, p)
    {
      var row := maps[start + p.block];
      maps[start + p.block := row[p.word := Store(row[p.word], Mask(p.bit), on)]]
    }

    /** Where `free_bit` looks for a number. */
    function Located(b: nat): Place
      requires 0 < perBlock
    {
      Place(Block(b), Word(b), b % 16)
    }

    /** Allocating a bit and freeing the number answered leaves the maps as they were; freeing
        does not panic, and stays within the map. */
    ghost predicate Undone(maps: Maps, p: Place)
      requires 0 < perBlock && InMaps(maps, p)
    {
      var q, maps' := Located(NumberOf(p)), StoreAt(maps, p, true);
      q.block < blocks && InMaps(maps', q) && BitAt(maps', q) && StoreAt(maps', q, false) == maps
    }

    ghost predicate AllocFreeUndone() {
      forall maps: Maps, origin: nat {:trigger Find(maps, origin)} | Shape(maps) && Readable(maps, origin) ::
        var r := Find(maps, origin);
        r.Some? ==> 0 < perBlock && InMaps(maps, r.value) && Undone(maps, r.value)
    }

    lemma {:induction false} ScanRowFinds(row: seq<bv16>, block: nat, word: nat)
      ensures
        var r := ScanRow(row, block, word);
        r.Some? ==>
          && r.value.block == block && word <= r.value.word < |row| && r.value.bit < 16
          && NumberOf(r.value) < bits && !Bit(row[r.value.word], r.value.bit)
      decreases |row| - word
    {
      if word < |row| {
        if row[word] == 0xFFFF {
          ScanRowFinds(row, block, word + 1);
        } else {
          LowZeroClear(row[word]);
        }
      }
    }

    lemma {:induction false} SearchFinds(maps: Maps, block: nat, word: nat, bcount: nat)
      requires 0 < blocks && Shape(maps) && start + block < |maps|
      ensures
        var r := Search(maps, block, word, bcount);
        r.Some? ==> InMaps(maps, r.value) && !BitAt(maps, r.value) && NumberOf(r.value) < bits
      ensures
        var r := Search(maps, block, word, bcount);
        r.Some? && block < blocks ==> r.value.block < blocks && r.value.word < words
      decreases bcount
    {
      ScanRowFinds(maps[start + block], block, word);
      if ScanRow(maps[start + block], block, word).None? && bcount > 1 {
        SearchFinds(maps, if block + 1 >= blocks then 0 else block + 1, 0, bcount - 1);
      }
    }

    /** In a map that fits, the number found leads back to the place found. */
    lemma FoundUndone(maps: Maps, origin: nat)
      requires Sized() && Fits() && Shape(maps) && Readable(maps, origin) && Find(maps, origin).Some?
      ensures
        var p := Find(maps, origin).value;
        Located(NumberOf(p)) == p && InMaps(maps, p) && Undone(maps, p)
    {
      FitsIsValid();
      var p := Find(maps, origin).value;
      if 0 < bits {
        LocateInRange(Origin(origin));
      }
      SearchFinds(maps, Block(Origin(origin)), Word(Origin(origin)), blocks + 1);
      LocateNumber(p.block, p.word, p.bit);
      StoreBack(maps[start + p.block][p.word], p.bit);
      var i, row := start + p.block, maps[start + p.block];
      var w := Store(row[p.word], Mask(p.bit), true);
      assert row[p.word := w][p.word := row[p.word]] == row;
      assert maps[i := row[p.word := w]][i := row] == maps;
    }

    // ----- maps that do not fit

    lemma {:induction false} FullWords(row: seq<bv16>, block: nat, word: nat, end: nat)
      requires word <= end <= |row| && forall j | word <= j < end :: row[j] == 0xFFFF
      ensures ScanRow(row, block, word) == ScanRow(row, block, end)
      decreases end - word
    {
      if word < end {
        FullWords(row, block, word + 1, end);
      }
    }

    /** Map blocks in which the first step of numbers is taken, and of the rest only the first
        bit of the second block, if `second` says so. */
    function HalfFull(second: bool): Maps
      requires 0 < perBlock
    {
      seq(start + blocks, i =>
        if i == start then seq(words, j => if j < perBlock / 16 then 0xFFFF else 0)
        else seq(words, j => if second && i == start + 1 && j == 0 then 1 else 0))
    }

    /** In a map that does not fit, the search can answer a number whose bit is another: past
        the end of the map, or, with more blocks, a bit that may be clear, and may be taken. */
    lemma Misnumbered(second: bool)
      requires Sized() && !Fits()
      ensures
        var maps, p := HalfFull(second), Place(0, perBlock / 16, 0);
        && Shape(maps) && Readable(maps, 0) && Find(maps, 0) == Some(p)
        && InMaps(maps, p) && !BitAt(maps, p) && NumberOf(p) == perBlock < bits
        && Located(perBlock) == Place(1, 0, 0)
        && (1 < blocks ==> InMaps(maps, Place(1, 0, 0)) && BitAt(maps, Place(1, 0, 0)) == second)
    {
      var maps, p := HalfFull(second), Place(0, perBlock / 16, 0);
      assert Origin(0) == 0 && Block(0) == 0 && Word(0) == 0;
      assert p.word < words && perBlock == 16 * p.word;
      FullWords(maps[start], 0, 0, p.word);
      ZeroWord();
      DivModUnique(perBlock, perBlock, 1, 0);
      if 1 < blocks {
        assert maps[start + 1][0] == if second then 1 else 0;
      }
    }

    lemma ZeroWord()
      ensures Bit(1, 0) && !Bit(0, 0) && LowZero(0, 0) == 0
    {
    }

    /** What the allocator is for: a bit allocated can be given back by its number. It can, in
        every state of the maps and from every origin, exactly if the map fits. */
    lemma AllocFreeUndoneIff()
      requires Sized()
      ensures AllocFreeUndone() <==> Fits()
    {
      if Fits() {
        forall maps: Maps, origin: nat | Shape(maps) && Readable(maps, origin) && Find(maps, origin).Some?
          ensures InMaps(maps, Find(maps, origin).value) && Undone(maps, Find(maps, origin).value)
        {
          FoundUndone(maps, origin);
        }
      } else {
        Misnumbered(false);
        var maps, p := HalfFull(false), Place(0, perBlock / 16, 0);
        assert Find(maps, 0) == Some(p);
        assert !Undone(maps, p);
      }
    }

    /** With several blocks it can even answer a number that has been handed out before, for
        the first bit of the second block, and is still in use. */
    lemma HandedOutTwice()
      requires Sized() && !Fits() && 1 < blocks
      ensures
        var maps := HalfFull(true);
        && Shape(maps) && Readable(maps, 0) && Find(maps, 0).Some?
        && NumberOf(Find(maps, 0).value) == NumberOf(Place(1, 0, 0)) < bits
        && InMaps(maps, Place(1, 0, 0)) && BitAt(maps, Place(1, 0, 0))
    {
      Misnumbered(true);
    }

    // ----- what the search has established so far

    /** Every number of one word is in `m`. */
    ghost predicate WordDone(m: set<nat>, block: nat, word: nat)
      requires Valid()
    {
      forall c: nat | c < bits && Block(c) == block && Word(c) == word :: c in m
    }

    /** The words whose numbers are all in `m`. */
    ghost function Done(m: set<nat>): set<(nat, nat)>
      requires Valid()
    {
      set block: nat, word: nat | block < blocks && word < words && WordDone(m, block, word) :: (block, word)
    }

    lemma FullWordDone(maps: seq<seq<bv16>>, block: nat, word: nat)
      requires Valid() && Shape(maps) && block < blocks && word < words
      requires maps[start + block][word] == 0xFFFF
      ensures (block, word) in Done(Marks(maps))
    {
      forall c: nat | c < bits && Block(c) == block && Word(c) == word
        ensures IsSet(maps, c)
      {
        LocateInRange(c);
        FullWord(c % 16);
      }
    }

    /** The numbers of a word below its first free bit are marked. */
    lemma LowBitsMarked(maps: seq<seq<bv16>>, block: nat, num: bv16, word: nat, bit: nat)
      requires Valid() && Shape(maps) && block < blocks && word < words && bit < 16
      requires num == maps[start + block][word]
      requires forall k: nat | k < bit :: Bit(num, k)
      ensures forall c: nat | c < bits && Block(c) == block && Word(c) == word && c < Number(block, word, bit) ::
                c in Marks(maps)
    {
      forall c: nat | c < bits && Block(c) == block && Word(c) == word && c < Number(block, word, bit)
        ensures IsSet(maps, c)
      {
        LocateInRange(c);
        assert Bit(num, c % 16);
      }
    }

    /** When the first free bit of a word lies past the end of the map, so does every free
        bit of the rest of the block. */
    lemma PastEndDone(maps: seq<seq<bv16>>, block: nat, num: bv16, word: nat, bit: nat)
      requires Valid() && Shape(maps) && block < blocks && word < words && bit < 16
      requires num == maps[start + block][word]
      requires forall k: nat | k < bit :: Bit(num, k)
      requires bits <= Number(block, word, bit)
      ensures Scanned(Done(Marks(maps)), block, word, words)
    {
      LowBitsMarked(maps, block, num, word, bit);
      forall w: nat | word <= w < words
        ensures WordDone(Marks(maps), block, w)
      {
        forall c: nat | c < bits && Block(c) == block && Word(c) == w
          ensures c in Marks(maps)
        {
          LocateInRange(c);
        }
      }
    }

    /** The order of the numbers is the order of their places. */
    lemma PlaceOrder(b: nat, c: nat)
      requires Valid() && b < bits && c < bits
      ensures b < c ==> Block(b) < Block(c) || (Block(b) == Block(c) && Word(b) <= Word(c))
      ensures Block(b) < Block(c) ==> b < c
      ensures Block(b) == Block(c) && Word(b) < Word(c) ==> b < c
    {
      LocateInRange(b);
      LocateInRange(c);
      MulOrder(Block(b), Block(c), perBlock);
      MulOrder(Block(c), Block(b), perBlock);
    }

    ghost predicate Scanned(d: set<(nat, nat)>, block: nat, lo: nat, hi: nat) {
      forall w: nat | lo <= w < hi :: (block, w) in d
    }

    /** The blocks the search has left behind: from `first` up to `block`, or, once it has
        gone around, all those after `first` and those below `block`. */
    ghost predicate Searched(d: set<(nat, nat)>, first: nat, firstWord: nat, block: nat, wrapped: bool) {
      && first < blocks && block < blocks
      && (if wrapped then block <= first else first <= block)
      && (wrapped || first < block ==> Scanned(d, first, firstWord, words))
      && (forall k: nat, w: nat
            | k < blocks && w < words && (if wrapped then first < k || k < block else first < k < block) ::
            (k, w) in d)
    }

    lemma SearchStep(d: set<(nat, nat)>, first: nat, firstWord: nat, block: nat, wrapped: bool)
      requires Searched(d, first, firstWord, block, wrapped)
      requires Scanned(d, block, if block == first && !wrapped then firstWord else 0, words)
      ensures !wrapped && block + 1 < blocks ==> Searched(d, first, firstWord, block + 1, false)
      ensures !wrapped && block + 1 == blocks ==> Searched(d, first, firstWord, 0, true)
      ensures wrapped && block < first ==> Searched(d, first, firstWord, block + 1, true)
      ensures wrapped && block == first ==> forall k: nat, w: nat | k < blocks && w < words :: (k, w) in d
    {
    }

    /** Once the search has come around past its first block, it has seen every bit. */
    lemma AllDone(m: set<nat>)
      requires Valid()
      requires forall k: nat, w: nat | k < blocks && w < words :: (k, w) in Done(m)
      ensures All() <= m
    {
      forall c: nat | c < bits
        ensures c in m
      {
        LocateInRange(c);
        assert (Block(c), Word(c)) in Done(m);
      }
    }

    /** Where the search for a bit near `origin` starts: at the first bit of its word. */
    function SearchStart(origin: nat): (s: nat)
      ensures s <= origin
    {
      var from := if origin >= bits then 0 else origin;
      from - from % 16
    }

    /** Going up from `from` and around, number `b` comes no later than number `c`. */
    predicate NoLater(from: nat, b: nat, c: nat) {
      if from <= b then b <= c || c < from else b <= c < from
    }

    /** Going up from `from` and around, `b` is the first number that is not in `m`. */
    ghost predicate FirstFrom(m: set<nat>, from: nat, b: nat) {
      forall c: nat | c < bits && c !in m :: NoLater(from, b, c)
    }

    /** The bit that the search found is the first free one on its way. */
    lemma FirstFree(m: set<nat>, origin: nat, block: nat, wrapped: bool, b: nat)
      requires Valid() && 0 < bits && b < bits && b !in m
      requires
        var from := if origin >= bits then 0 else origin;
        && Searched(Done(m), Block(from), Word(from), block, wrapped)
        && Scanned(Done(m), block, if block == Block(from) && !wrapped then Word(from) else 0, Word(b))
        && (block == Block(from) && !wrapped ==> Word(from) <= Word(b))
      requires block == Block(b)
      requires forall c: nat | c < bits && Block(c) == block && Word(c) == Word(b) && c < b :: c in m
      ensures FirstFrom(m, SearchStart(origin), b)
    {
      var from := if origin >= bits then 0 else origin;
      forall c: nat | c < bits && c !in m
        ensures NoLater(SearchStart(origin), b, c)
      {
        FirstFreeAt(m, from, block, wrapped, b, c);
      }
    }

    /** A number is below the first number of a word exactly if its word is. */
    lemma BelowWord(from: nat, c: nat)
      requires Valid() && from < bits && c < bits
      ensures c < from - from % 16 <==> Block(c) < Block(from) || (Block(c) == Block(from) && Word(c) < Word(from))
    {
      LocateInRange(from);
      LocateInRange(c);
      MulOrder(Block(c), Block(from), perBlock);
      MulOrder(Block(from), Block(c), perBlock);
    }

    lemma FirstFreeAt(m: set<nat>, from: nat, block: nat, wrapped: bool, b: nat, c: nat)
      requires Valid() && from < bits && b < bits && c < bits && b !in m && c !in m
      requires Searched(Done(m), Block(from), Word(from), block, wrapped)
      requires block == Block(b)
      requires Scanned(Done(m), block, if block == Block(from) && !wrapped then Word(from) else 0, Word(b))
      requires block == Block(from) && !wrapped ==> Word(from) <= Word(b)
      requires Block(c) == block && Word(c) == Word(b) && c < b ==> c in m
      ensures NoLater(from - from % 16, b, c)
    {
      LocateInRange(b);
      LocateInRange(c);
      BelowWord(from, b);
      BelowWord(from, c);
      PlaceOrder(c, b);
      PlaceOrder(b, c);
      assert (Block(b), Word(b)) !in Done(m) && (Block(c), Word(c)) !in Done(m);
    }

    lemma MarksWithin(maps: Maps)
      requires Valid() && Shape(maps)
      ensures Marks(maps) <= All()
    {
    }

    // ----- what the search finds in a map that fits

    /** The place at which the scan of a block from `word` on stops, told by numbers. */
    ghost predicate Stopped(m: set<nat>, block: nat, word: nat, p: Place)
      requires Valid()
    {
      && p.block == block && word <= p.word < words && p.bit < 16
      && NumberOf(p) < bits && NumberOf(p) !in m && Located(NumberOf(p)) == p
      && Scanned(Done(m), block, word, p.word)
      && forall c: nat | c < bits && Block(c) == block && Word(c) == p.word && c < NumberOf(p) :: c in m
    }

    lemma {:induction false} ScanRowMeans(maps: Maps, block: nat, word: nat)
      requires Valid() && Fits() && Shape(maps) && block < blocks && word <= words
      ensures
        match ScanRow(maps[start + block], block, word)
        case None => Scanned(Done(Marks(maps)), block, word, words)
        case Some(p) => Stopped(Marks(maps), block, word, p)
      decreases words - word
    {
      hide Done, Marks, Fits;
      if word < words {
        var num := maps[start + block][word];
        if num == 0xFFFF {
          FullWordDone(maps, block, word);
          ScanRowMeans(maps, block, word + 1);
        } else {
          LowZeroClear(num);
          var bit := LowZero(num, 0);
          if Number(block, word, bit) >= bits {
            PastEndDone(maps, block, num, word, bit);
          } else {
            LocateNumber(block, word, bit);
            LowBitsMarked(maps, block, num, word, bit);
            ClearUnmarked(maps, Place(block, word, bit));
          }
        }
      }
    }

    lemma ClearUnmarked(maps: Maps, p: Place)
      requires Valid() && Shape(maps) && p.block < blocks && p.word < words && p.bit < 16
      requires NumberOf(p) < bits && Located(NumberOf(p)) == p && !BitAt(maps, p)
      ensures NumberOf(p) !in Marks(maps)
    {
    }

    lemma {:induction false} SearchFrom(maps: Maps, origin: nat, block: nat, word: nat, bcount: nat, wrapped: bool)
      requires Valid() && Fits() && Shape(maps) && 0 < bits
      requires
        var first, firstWord := Block(Origin(origin)), Word(Origin(origin));
        && Searched(Done(Marks(maps)), first, firstWord, block, wrapped)
        && bcount == (if wrapped then first + 1 - block else blocks + 1 - (block - first))
        && word == (if block == first && !wrapped then firstWord else 0)
        && word < words
      ensures
        match Search(maps, block, word, bcount)
        case None => All() <= Marks(maps)
        case Some(p) =>
          && NumberOf(p) < bits && NumberOf(p) !in Marks(maps) && Located(NumberOf(p)) == p
          && FirstFrom(Marks(maps), SearchStart(origin), NumberOf(p))
      decreases bcount
    {
      hide Done, Marks, Fits, FirstFrom;
      var first, firstWord := Block(Origin(origin)), Word(Origin(origin));
      ScanRowMeans(maps, block, word);
      match ScanRow(maps[start + block], block, word) {
        case Some(p) =>
          FirstFree(Marks(maps), origin, block, wrapped, NumberOf(p));
        case None =>
          SearchStep(Done(Marks(maps)), first, firstWord, block, wrapped);
          if bcount == 1 {
            AllDone(Marks(maps));
          } else if block + 1 >= blocks {
            SearchFrom(maps, origin, 0, 0, bcount - 1, true);
          } else {
            SearchFrom(maps, origin, block + 1, 0, bcount - 1, wrapped);
          }
      }
    }

    /** In a map that fits, the search finds the first clear number from `origin` around, and
        fails only if there is none. */
    lemma FindMeans(maps: Maps, origin: nat)
      requires Valid() && Fits() && Shape(maps) && 0 < bits
      ensures Readable(maps, origin)
      ensures
        match Find(maps, origin)
        case None => All() == Marks(maps)
        case Some(p) =>
          && NumberOf(p) < bits && NumberOf(p) !in Marks(maps) && Located(NumberOf(p)) == p
          && FirstFrom(Marks(maps), SearchStart(origin), NumberOf(p))
    {
      LocateInRange(Origin(origin));
      SearchFrom(maps, origin, Block(Origin(origin)), Word(Origin(origin)), blocks + 1, false);
    }

    /** If all numbers below the origin are taken, the first free one on the way is the least. */
    lemma LeastFrom(m: set<nat>, origin: nat, b: nat)
      requires FirstFrom(m, SearchStart(origin), b) && b < bits && b !in m
      requires forall c: nat | c < origin :: c in m
      ensures forall c: nat | c < b :: c in m
    {
      forall c: nat | c < b
        ensures c in m
      {
        assert c !in m ==> NoLater(SearchStart(origin), b, c);
      }
    }
  }

  function MapLayout(devinfo: DeviceInfo, perBlock: nat, which: MapKind): Layout
    requires 0 < devinfo.firstdatazone <= devinfo.zones
  {
    match which
    case IMAP =>
      Layout(START_BLOCK, devinfo.imapBlocks, devinfo.inodes + 1, perBlock, devinfo.blocksize / 2)
    case ZMAP =>
      Layout(START_BLOCK + devinfo.imapBlocks, devinfo.zmapBlocks,
             devinfo.zones - (devinfo.firstdatazone - 1), perBlock, devinfo.blocksize / 2)
  }

  /** The step `NewBitmap` uses: eight numbers for each 16-bit word of a block. */
  function BitchunksPerBlock(blocksize: nat): nat {
    (blocksize / 2) * 8
  }

  /** The blocks that `bitmapsize` reckons for a map of `bits` bits. */
  function BitmapBlocks(bits: nat, blocksize: nat): nat
    requires 0 < blocksize / 2
  {
    var perBlock := (blocksize / 2) * 16;
    bits / perBlock + if (bits / perBlock) * perBlock < bits then 1 else 0
  }

  lemma BitmapBlocksHold(bits: nat, blocksize: nat)
    requires 0 < blocksize / 2
    ensures bits <= BitmapBlocks(bits, blocksize) * (16 * (blocksize / 2))
  {
    var perBlock := (blocksize / 2) * 16;
    DivMod(bits, perBlock);
  }

  lemma EnoughBlocks(bits: nat, n: nat, blocks: nat, d: nat)
    requires bits <= n * d && n <= blocks && 0 < bits
    ensures bits <= blocks * d && 0 < blocks
  {
    MulAtMost(n, blocks, d);
  }

  /** `NewBitmap` counts half of the bits of a block. So in the maps it serves, with as many
      blocks as `bitmapsize` says or more, what is allocated can be given back exactly if the
      map has at most that many bits. */
  lemma NewBitmapSoundIff(devinfo: DeviceInfo, which: MapKind)
    requires 0 < devinfo.firstdatazone <= devinfo.zones && 0 < devinfo.blocksize && devinfo.blocksize % 4 == 0
    requires
      var lay := MapLayout(devinfo, BitchunksPerBlock(devinfo.blocksize), which);
      BitmapBlocks(lay.bits, devinfo.blocksize) <= lay.blocks
    ensures
      var lay := MapLayout(devinfo, BitchunksPerBlock(devinfo.blocksize), which);
      lay.AllocFreeUndone() <==> lay.bits <= (devinfo.blocksize / 2) * 8
  {
    var lay := MapLayout(devinfo, BitchunksPerBlock(devinfo.blocksize), which);
    hide BitmapBlocks, Layout.AllocFreeUndone;
    BitmapBlocksHold(lay.bits, devinfo.blocksize);
    EnoughBlocks(lay.bits, BitmapBlocks(lay.bits, devinfo.blocksize), lay.blocks, 16 * lay.words);
    assert lay.perBlock == 16 * (devinfo.blocksize / 4) && lay.words == 2 * (devinfo.blocksize / 4);
    hide MapLayout, BitchunksPerBlock;
    lay.AllocFreeUndoneIff();
  }

  /** A device of 5000 inodes with blocks of 1024 bytes, and with maps as `bitmapsize` reckons
      them, is one for which it is not: once the first 4096 inode numbers are taken, inode 4096
      is allocated, and to free it is to free bit 0 of the zone map. */
  lemma LargeInodeMapMisnumbered(maps: Maps)
    requires MapLayout(LargeDevice(), BitchunksPerBlock(1024), IMAP).Shape(maps)
    requires MapLayout(LargeDevice(), BitchunksPerBlock(1024), ZMAP).Shape(maps)
    requires forall j | 0 <= j < 512 :: maps[START_BLOCK][j] == if j < 256 then 0xFFFF else 0
    ensures
      var ilay, zlay := MapLayout(LargeDevice(), BitchunksPerBlock(1024), IMAP),
          MapLayout(LargeDevice(), BitchunksPerBlock(1024), ZMAP);
      && ilay.blocks == BitmapBlocks(ilay.bits, 1024) && zlay.blocks == BitmapBlocks(zlay.bits, 1024)
      && ilay.Readable(maps, 0) && ilay.Find(maps, 0) == Some(Place(0, 256, 0))
          && ilay.NumberOf(Place(0, 256, 0)) == 4096
      && ilay.start + ilay.Located(4096).block == zlay.start + zlay.Located(0).block
      && ilay.Located(4096).word == zlay.Located(0).word && ilay.Located(4096).bit == zlay.Located(0).bit
  {
    var ilay := MapLayout(LargeDevice(), BitchunksPerBlock(1024), IMAP);
    ilay.FullWords(maps[START_BLOCK], 0, 0, 256);
    ilay.ZeroWord();
    assert ilay.Origin(0) == 0 && ilay.Block(0) == 0 && ilay.Word(0) == 0;
  }

  function LargeDevice(): DeviceInfo {
    DeviceInfo(1024, 0, 400, 60000, 5000, 0x7FFF_FFFF, 1, 8)
  }

  ghost predicate ValidGeometry(devinfo: DeviceInfo, perBlock: nat) {
    && 0 < devinfo.firstdatazone < devinfo.zones
    && MapLayout(devinfo, perBlock, IMAP).Valid() && MapLayout(devinfo, perBlock, IMAP).Fits()
    && MapLayout(devinfo, perBlock, ZMAP).Valid() && MapLayout(devinfo, perBlock, ZMAP).Fits()
  }

  ghost predicate ValidMaps(devinfo: DeviceInfo, perBlock: nat, maps: seq<seq<bv16>>) {
    && ValidGeometry(devinfo, perBlock)
    && MapLayout(devinfo, perBlock, IMAP).Shape(maps)
    && MapLayout(devinfo, perBlock, ZMAP).Shape(maps)
  }

  ghost function MarksOf(devinfo: DeviceInfo, perBlock: nat, maps: seq<seq<bv16>>, which: MapKind): set<nat>
    requires ValidMaps(devinfo, perBlock, maps)
  {
    MapLayout(devinfo, perBlock, which).Marks(maps)
  }

  /** Switching one number of one map changes that number of that map, and the other map
      not at all. */
  lemma SwitchOne(devinfo: DeviceInfo, perBlock: nat, maps: seq<seq<bv16>>, which: MapKind, b: nat, on: bool)
    requires ValidMaps(devinfo, perBlock, maps)
    requires b < MapLayout(devinfo, perBlock, which).bits
    ensures
      var lay := MapLayout(devinfo, perBlock, which);
      && lay.Block(b) < lay.blocks && lay.Word(b) < lay.words
      && var maps' := lay.Switch(maps, b, on);
      && ValidMaps(devinfo, perBlock, maps')
      && MarksOf(devinfo, perBlock, maps', which) ==
         (if on then MarksOf(devinfo, perBlock, maps, which) + {b} else MarksOf(devinfo, perBlock, maps, which) - {b})
      && forall other | other != which ::
           MarksOf(devinfo, perBlock, maps', other) == MarksOf(devinfo, perBlock, maps, other)
  {
    var lay := MapLayout(devinfo, perBlock, which);
    lay.LocateInRange(b);
    lay.SwitchMarks(maps, b, on);
    var maps' := lay.Switch(maps, b, on);
    forall other | other != which
      ensures MapLayout(devinfo, perBlock, other).Shape(maps')
      ensures MapLayout(devinfo, perBlock, other).Marks(maps') == MapLayout(devinfo, perBlock, other).Marks(maps)
    {
      MapLayout(devinfo, perBlock, other).MarksFrame(maps, maps');
    }
  }

  /** What the search finds in one of the maps, and what setting its bit does. */
  lemma SearchMeans(devinfo: DeviceInfo, perBlock: nat, maps: Maps, which: MapKind, origin: nat)
    requires ValidMaps(devinfo, perBlock, maps)
    ensures
      var lay, m := MapLayout(devinfo, perBlock, which), MarksOf(devinfo, perBlock, maps, which);
      && 0 < devinfo.firstdatazone < devinfo.zones
      && lay.Shape(maps) && lay.Readable(maps, origin) && m <= lay.All()
      && match lay.Find(maps, origin)
         case None => m == lay.All()
         case Some(p) =>
           var b := lay.NumberOf(p);
           && b < lay.bits && b !in m && lay.FirstFrom(m, lay.SearchStart(origin), b) && lay.InMaps(maps, p)
           && m != lay.All()
           && var maps' := lay.StoreAt(maps, p, true);
           && ValidMaps(devinfo, perBlock, maps')
           && MarksOf(devinfo, perBlock, maps', which) == m + {b}
           && forall other | other != which ::
                MarksOf(devinfo, perBlock, maps', other) == MarksOf(devinfo, perBlock, maps, other)
  {
    hide Layout.Marks, Layout.FirstFrom;
    var lay := MapLayout(devinfo, perBlock, which);
    lay.FindMeans(maps, origin);
    lay.MarksWithin(maps);
    if lay.Find(maps, origin).Some? {
      var b := lay.NumberOf(lay.Find(maps, origin).value);
      assert b in lay.All();
      LocatedSwitch(devinfo, perBlock, maps, which, b, true);
      SwitchOne(devinfo, perBlock, maps, which, b, true);
    }
  }

  /** Storing at the place of a number is switching it. */
  lemma LocatedSwitch(devinfo: DeviceInfo, perBlock: nat, maps: Maps, which: MapKind, b: nat, on: bool)
    requires ValidMaps(devinfo, perBlock, maps) && b < MapLayout(devinfo, perBlock, which).bits
    ensures
      var lay := MapLayout(devinfo, perBlock, which);
      && lay.Block(b) < lay.blocks && lay.Word(b) < lay.words && lay.InMaps(maps, lay.Located(b))
      && lay.StoreAt(maps, lay.Located(b), on) == lay.Switch(maps, b, on)
      && (b in MarksOf(devinfo, perBlock, maps, which) <==> lay.BitAt(maps, lay.Located(b)))
  {
    MapLayout(devinfo, perBlock, which).LocateInRange(b);
  }

  ghost predicate IsDataZone(devinfo: DeviceInfo, z: nat) {
    devinfo.firstdatazone <= z < devinfo.zones
  }

  ghost function DataZones(devinfo: DeviceInfo): set<nat> {
    set z: nat | z < devinfo.zones && IsDataZone(devinfo, z)
  }

  ghost predicate IsInodeNumber(devinfo: DeviceInfo, i: nat) {
    1 <= i <= devinfo.inodes
  }

  ghost function InodeNumbers(devinfo: DeviceInfo): set<nat> {
    set i: nat | i <= devinfo.inodes && IsInodeNumber(devinfo, i)
  }

  lemma InodesFull(devinfo: DeviceInfo, perBlock: nat, m: set<nat>)
    requires 0 < devinfo.firstdatazone < devinfo.zones && NO_BIT in m
    requires m <= MapLayout(devinfo, perBlock, IMAP).All()
    ensures m == MapLayout(devinfo, perBlock, IMAP).All() <==> m - {NO_BIT} == InodeNumbers(devinfo)
  {
    if m - {NO_BIT} == InodeNumbers(devinfo) {
      forall b: nat | b < MapLayout(devinfo, perBlock, IMAP).bits
        ensures b in m
      {
        assert b == 0 || (IsInodeNumber(devinfo, b) && b in InodeNumbers(devinfo));
      }
    }
  }

  /** The zones that a set of zone-map bits stands for. */
  ghost function ZonesOf(devinfo: DeviceInfo, m: set<nat>): set<nat>
    requires 0 < devinfo.firstdatazone
  {
    set z: nat | z < devinfo.zones && ZoneMarked(devinfo, m, z)
  }

  ghost predicate ZoneMarked(devinfo: DeviceInfo, m: set<nat>, z: nat)
    requires 0 < devinfo.firstdatazone
  {
    devinfo.firstdatazone <= z && z - (devinfo.firstdatazone - 1) in m
  }

  lemma ZonesSwitch(devinfo: DeviceInfo, m: set<nat>, bit: nat)
    requires 0 < devinfo.firstdatazone
    requires 0 < bit < devinfo.zones - (devinfo.firstdatazone - 1)
    ensures ZonesOf(devinfo, m + {bit}) == ZonesOf(devinfo, m) + {devinfo.firstdatazone - 1 + bit}
    ensures ZonesOf(devinfo, m - {bit}) == ZonesOf(devinfo, m) - {devinfo.firstdatazone - 1 + bit}
    ensures bit in m <==> devinfo.firstdatazone - 1 + bit in ZonesOf(devinfo, m)
  {
  }

  /** With bit 0 reserved, the zone map is full exactly when every zone is allocated. */
  lemma ZonesFull(devinfo: DeviceInfo, perBlock: nat, m: set<nat>)
    requires 0 < devinfo.firstdatazone < devinfo.zones && NO_BIT in m
    requires m <= MapLayout(devinfo, perBlock, ZMAP).All()
    ensures m == MapLayout(devinfo, perBlock, ZMAP).All() <==>
            ZonesOf(devinfo, m) == DataZones(devinfo)
  {
    if ZonesOf(devinfo, m) == DataZones(devinfo) {
      forall b: nat | b < MapLayout(devinfo, perBlock, ZMAP).bits
        ensures b in m
      {
        if b > 0 {
          assert IsDataZone(devinfo, b + (devinfo.firstdatazone - 1));
          assert b + (devinfo.firstdatazone - 1) in ZonesOf(devinfo, m);
        }
      }
    }
  }

  /** The bits of a map are numbered in the order in which they stand in its blocks, the lowest
      bit of a word first: the inode map begins at block 2, the zone map right after it. The
      number of a zone is that of its bit, counted from the zone before the first data zone. */
  lemma MarkedMeans(devinfo: DeviceInfo, perBlock: nat, maps: Maps, r: nat, i: nat, k: nat)
    requires ValidMaps(devinfo, perBlock, maps) && i < devinfo.blocksize / 2 && k < 16
    ensures
      var b := (r * (devinfo.blocksize / 2) + i) * 16 + k;
      b <= devinfo.inodes ==>
        && r < devinfo.imapBlocks && 2 + devinfo.imapBlocks <= |maps| && |maps[2 + r]| == devinfo.blocksize / 2
        && (b in MarksOf(devinfo, perBlock, maps, IMAP) <==> maps[2 + r][i] & (1 << k) != 0)
    ensures
      var b := (r * (devinfo.blocksize / 2) + i) * 16 + k;
      b < devinfo.zones - (devinfo.firstdatazone - 1) ==>
        && r < devinfo.zmapBlocks && 2 + devinfo.imapBlocks + devinfo.zmapBlocks <= |maps|
        && |maps[2 + devinfo.imapBlocks + r]| == devinfo.blocksize / 2
        && (b in MarksOf(devinfo, perBlock, maps, ZMAP) <==>
            maps[2 + devinfo.imapBlocks + r][i] & (1 << k) != 0)
        && (b > 0 ==>
              (devinfo.firstdatazone - 1 + b in ZonesOf(devinfo, MarksOf(devinfo, perBlock, maps, ZMAP)) <==>
               b in MarksOf(devinfo, perBlock, maps, ZMAP)))
  {
    hide Layout.Valid, Layout.Fits, Layout.Marks, Layout.IsSet;
    var b := (r * (devinfo.blocksize / 2) + i) * 16 + k;
    if b <= devinfo.inodes {
      MapLayout(devinfo, perBlock, IMAP).SetMeans(maps, r, i, k);
    }
    if b < devinfo.zones - (devinfo.firstdatazone - 1) {
      MapLayout(devinfo, perBlock, ZMAP).SetMeans(maps, r, i, k);
    }
  }

  /** Of the zones that are not in `taken`, `z` is the first on the way up and around from where
      the search for a zone near `zstart` starts, with the hint `hint`. */
  ghost predicate FirstAround(devinfo: DeviceInfo, taken: set<nat>, zstart: nat, hint: nat, z: nat)
    requires 0 < devinfo.firstdatazone
  {
    var bit0 := devinfo.firstdatazone - 1;
    var from := if zstart <= devinfo.firstdatazone then hint else if zstart < devinfo.zones then zstart - bit0 else 0;
    var first := bit0 + from - from % 16;
    forall y: nat | IsDataZone(devinfo, y) && y !in taken ::
      if first <= z then z <= y || y < first else z <= y < first
  }

  /** No free zone lies between `zstart` and the zone answered, up and around; only one in the
      same 16-bit word may precede `zstart`. Without such a `zstart` that holds of the hint; and
      for a number past the last zone, the lowest free zone is the one. */
  lemma FirstAroundMeans(devinfo: DeviceInfo, taken: set<nat>, zstart: nat, hint: nat, z: nat, y: nat)
    requires 0 < devinfo.firstdatazone && FirstAround(devinfo, taken, zstart, hint, z)
    requires devinfo.firstdatazone <= y < devinfo.zones && y !in taken && devinfo.firstdatazone <= z
    ensures devinfo.firstdatazone < zstart < devinfo.zones ==>
              var bit0 := devinfo.firstdatazone - 1;
              && (z >= zstart ==> !(zstart <= y < z))
              && (z < zstart && (z - bit0) / 16 != (zstart - bit0) / 16 ==> z <= y < zstart)
              && (z < zstart && (z - bit0) / 16 == (zstart - bit0) / 16 ==>
                    !((y - bit0) / 16 == (zstart - bit0) / 16 && y < z))
    ensures zstart <= devinfo.firstdatazone ==>
              var near := devinfo.firstdatazone - 1 + hint;
              var bit0 := devinfo.firstdatazone - 1;
              && (z >= near ==> !(near <= y < z))
              && (z < near && (z - bit0) / 16 != hint / 16 ==> z <= y < near)
              && (z < near && (z - bit0) / 16 == hint / 16 ==> !((y - bit0) / 16 == hint / 16 && y < z))
    ensures zstart >= devinfo.zones && zstart > devinfo.firstdatazone ==> z <= y
  {
  }

  /** The first free bit on the way is the first free zone. */
  lemma NearestZone(devinfo: DeviceInfo, perBlock: nat, m: set<nat>, zstart: nat, hint: nat, origin: nat, bit: nat)
    requires 0 < devinfo.firstdatazone < devinfo.zones && hint < devinfo.zones - (devinfo.firstdatazone - 1)
    requires origin == if zstart <= devinfo.firstdatazone then hint else zstart - (devinfo.firstdatazone - 1)
    requires
      var lay := MapLayout(devinfo, perBlock, ZMAP);
      lay.FirstFrom(m, lay.SearchStart(origin), bit)
    ensures FirstAround(devinfo, ZonesOf(devinfo, m), zstart, hint, devinfo.firstdatazone - 1 + bit)
  {
    var lay := MapLayout(devinfo, perBlock, ZMAP);
    var bit0 := devinfo.firstdatazone - 1;
    forall y: nat | devinfo.firstdatazone <= y < devinfo.zones && y !in ZonesOf(devinfo, m)
      ensures lay.NoLater(lay.SearchStart(origin), bit, y - bit0)
    {
      assert ZoneMarked(devinfo, m, y) <==> y - bit0 in m;
    }
  }

  /** Over any run of allocations and frees, beginning with a new bitmap, the hint for zones is
      the least bit that was allocated or freed. */
  lemma {:induction false} HintIsLeast(hints: seq<nat>, bits: seq<nat>)
    requires |hints| == |bits| + 1 && hints[0] == 0 && forall i | 0 <= i < |bits| :: 0 < bits[i]
    requires forall i | 0 <= i < |bits| ::
               hints[i + 1] == if bits[i] < hints[i] || hints[i] == 0 then bits[i] else hints[i]
    ensures bits != [] ==> hints[|bits|] in bits && forall b | b in bits :: hints[|bits|] <= b
  {
    if bits != [] {
      var n := |bits| - 1;
      HintIsLeast(hints[..|bits|], bits[..n]);
      assert bits == bits[..n] + [bits[n]];
    }
  }

  class Bitmap {
    const devinfo: DeviceInfo
    const perBlock: nat
    var maps: seq<seq<bv16>>  // the map blocks, by block number
    var iSearch: nat
    var zSearch: nat

    ghost predicate Valid()
      reads this
    {
      ValidMaps(devinfo, perBlock, maps)
    }

    function Lay(which: MapKind): Layout
      requires 0 < devinfo.firstdatazone <= devinfo.zones
    {
      MapLayout(devinfo, perBlock, which)
    }

    ghost function Marks(which: MapKind): set<nat>
      requires Valid()
      reads this
    {
      MarksOf(devinfo, perBlock, maps, which)
    }

    constructor (devinfo: DeviceInfo, maps: seq<seq<bv16>>)
      requires ValidGeometry(devinfo, BitchunksPerBlock(devinfo.blocksize))
      requires forall which :: MapLayout(devinfo, BitchunksPerBlock(devinfo.blocksize), which).Shape(maps)
      ensures Valid()
      ensures this.devinfo == devinfo && this.maps == maps && iSearch == 0 && zSearch == 0
    {
      this.devinfo := devinfo;
      this.perBlock := BitchunksPerBlock(devinfo.blocksize);
      this.maps := maps;
      iSearch, zSearch := 0, 0;
    }

    /** Allocates a free bit of a map, searching from `origin` around to where it began. The
        bit set is the one found, on any map blocks; in maps that fit it is that of the number
        answered. */
    method AllocBit(which: MapKind, origin: nat) returns (b: nat)
      requires 0 < devinfo.firstdatazone <= devinfo.zones
      requires Lay(which).Shape(maps) && Lay(which).Readable(maps, origin)
      modifies this`maps
      ensures
        match old(Lay(which).Find(maps, origin))
        case None => b == NO_BIT && maps == old(maps)
        case Some(p) =>
          && b == Lay(which).NumberOf(p)
          && Lay(which).InMaps(old(maps), p) && maps == Lay(which).StoreAt(old(maps), p, true)
      ensures old(Valid()) ==> Valid()
      ensures old(Valid()) && old(Marks(which)) == Lay(which).All() ==> b == NO_BIT && maps == old(maps)
      ensures old(Valid()) && old(Marks(which)) != Lay(which).All() ==>
                && b < Lay(which).bits
                && b !in old(Marks(which))
                && Marks(which) == old(Marks(which)) + {b}
      ensures old(Valid()) ==> forall other | other != which :: Marks(other) == old(Marks(other))
      ensures old(Valid()) && old(Marks(which)) != Lay(which).All() ==>
                var from := if origin >= Lay(which).bits then 0 else origin;
                var first := from - from % 16;
                forall c: nat | c < Lay(which).bits && c !in old(Marks(which)) ::
                  if first <= b then b <= c || c < first else b <= c < first
    {
      hide ValidMaps, MarksOf;
      var lay := Lay(which);
      var found := FindFree(which, origin);
      ghost var was := maps;
      if Valid() {
        SearchMeans(devinfo, perBlock, maps, which, origin);
      }
      if found.Some? {
        var p := found.value;
        var row := maps[lay.start + p.block];
        maps := maps[lay.start + p.block := row[p.word := Store(row[p.word], Mask(p.bit), true)]];
        return lay.NumberOf(p);
      }
      return NO_BIT;
    }

    /** The search over all blocks, once around and back into the block it started in. */
    method FindFree(which: MapKind, origin: nat) returns (found: Option<Place>)
      requires 0 < devinfo.firstdatazone <= devinfo.zones
      requires Lay(which).Shape(maps) && Lay(which).Readable(maps, origin)
      ensures found == Lay(which).Find(maps, origin)
      ensures found.Some? ==> Lay(which).InMaps(maps, found.value)
    {
      var lay := Lay(which);
      var from := lay.Origin(origin);
      var block: nat := lay.Block(from);
      var word: nat := lay.Word(from);
      var bcount := lay.blocks + 1;
      lay.SearchFinds(maps, block, word, bcount);
      while true
        invariant 0 < bcount && lay.start + block < |maps|
        invariant lay.Search(maps, block, word, bcount) == lay.Find(maps, origin)
        decreases bcount
      {
        found := FindInBlock(which, block, word);
        if found.Some? {
          return;
        }
        block := block + 1;
        if block >= lay.blocks {
          block := 0;
        }
        word := 0;
        bcount := bcount - 1;
        if bcount <= 0 {
          return;
        }
      }
    }

    /** The search of one block, from `word` on. */
    method FindInBlock(which: MapKind, block: nat, word: nat) returns (found: Option<Place>)
      requires 0 < devinfo.firstdatazone <= devinfo.zones && Lay(which).start + block < |maps|
      ensures found == Lay(which).ScanRow(maps[Lay(which).start + block], block, word)
    {
      var lay := Lay(which);
      var bitmaps := maps[lay.start + block];
      var i := word;
      while i < |bitmaps|
        invariant lay.ScanRow(bitmaps, block, i) == lay.ScanRow(bitmaps, block, word)
      {
        var num := bitmaps[i];
        if num == 0xFFFF {
          i := i + 1;
          continue;
        }
        var bit := FirstZero(num);
        var b := lay.Number(block, i, bit);
        if b >= lay.bits {
          return None;
        }
        return Some(Place(block, i, bit));
      }
      return None;
    }

    /** Clears the bit that a number leads to. Freeing a clear bit panics, so the bit must be
        set. */
    method FreeBit(which: MapKind, b: nat)
      requires 0 < devinfo.firstdatazone <= devinfo.zones && 0 < perBlock
      requires Lay(which).InMaps(maps, Lay(which).Located(b)) && Lay(which).BitAt(maps, Lay(which).Located(b))
      modifies this`maps
      ensures maps == Lay(which).StoreAt(old(maps), Lay(which).Located(b), false)
      ensures old(Valid()) && b < Lay(which).bits ==>
                Valid() && b in old(Marks(which)) && Marks(which) == old(Marks(which)) - {b}
      ensures old(Valid()) && b < Lay(which).bits ==> forall other | other != which :: Marks(other) == old(Marks(other))
    {
      hide ValidMaps, MarksOf;
      var lay := Lay(which);
      var block := lay.Block(b);
      var word := lay.Word(b);
      var row := maps[lay.start + block];
      if Valid() && b < lay.bits {
        LocatedSwitch(devinfo, perBlock, maps, which, b, false);
        SwitchOne(devinfo, perBlock, maps, which, b, false);
      }
      maps := maps[lay.start + block := row[word := Store(row[word], Mask(b % 16), false)]];
    }

    /** A number in use can be freed. */
    lemma InUse(which: MapKind, b: nat)
      requires Valid() && b in Marks(which)
      ensures 0 < devinfo.firstdatazone <= devinfo.zones && 0 < perBlock && b < Lay(which).bits
      ensures Lay(which).InMaps(maps, Lay(which).Located(b)) && Lay(which).BitAt(maps, Lay(which).Located(b))
    {
      Lay(which).LocateInRange(b);
    }

    // ----- inodes and zones

    /** Between requests: bit 0 of both maps is taken, no inode below the hint is free, and the
        hint for zones is a number of its map. */
    ghost predicate Ready()
      reads this
    {
      && Valid()
      && NO_BIT in Marks(IMAP) && NO_BIT in Marks(ZMAP)
      && zSearch < devinfo.zones - (devinfo.firstdatazone - 1)
      && forall c: nat | c < iSearch :: c in Marks(IMAP)
    }

    /** The allocated zones, by absolute zone number. */
    ghost function Zones(): set<nat>
      requires Ready()
      reads this
    {
      ZonesOf(devinfo, Marks(ZMAP))
    }

    ghost function AllZones(): set<nat> {
      DataZones(devinfo)
    }

    /** How many zones are free. */
    ghost function FreeZones(): nat
      requires Ready()
      reads this
    {
      |AllZones() - Zones()|
    }

    /** The allocated inode numbers. */
    ghost function Inodes(): set<nat>
      requires Ready()
      reads this
    {
      Marks(IMAP) - {NO_BIT}
    }

    ghost function AllInodes(): set<nat> {
      InodeNumbers(devinfo)
    }

    method AllocInode() returns (inum: int, err: Error)
      requires Ready()
      modifies this`maps, this`iSearch
      ensures Ready()
      ensures err == OK || (err == ENFILE && inum == -1)
      ensures err == OK <==> old(Inodes()) != AllInodes()
      ensures err == OK ==> 1 <= inum <= devinfo.inodes && inum !in old(Inodes())
      ensures Inodes() == if err == OK then old(Inodes()) + {inum} else old(Inodes())
      ensures err == OK ==> forall i: nat | 1 <= i < inum :: i in old(Inodes())  // the least free one
      ensures Zones() == old(Zones()) && iSearch == if err == OK then inum else old(iSearch)
    {
      SearchMeans(devinfo, perBlock, maps, IMAP, iSearch);
      var b := AllocBit(IMAP, iSearch);
      if b != NO_BIT {
        Lay(IMAP).LeastFrom(old(Marks(IMAP)), iSearch, b);
      }
      InodesFull(devinfo, perBlock, old(Marks(IMAP)));
      if b == NO_BIT {
        return -1, ENFILE;
      }
      iSearch := b;
      return b, OK;
    }

    method FreeInode(inum: int)
      requires Ready()
      requires 1 <= inum <= devinfo.inodes ==> inum in Inodes()
      modifies this`maps, this`iSearch
      ensures Ready()
      ensures Inodes() == if 1 <= inum <= devinfo.inodes then old(Inodes()) - {inum} else old(Inodes())
      ensures Zones() == old(Zones())
      ensures iSearch == if 1 <= inum <= devinfo.inodes && inum < old(iSearch) then inum else old(iSearch)
    {
      if inum <= 0 || inum > devinfo.inodes {
        return;
      }
      InUse(IMAP, inum);
      FreeBit(IMAP, inum);
      if inum < iSearch {
        iSearch := inum;
      }
    }

    /** The inode freed last, if it is the one allocated last, is allocated next. */
    method AllocAgain() returns (first: int, second: int)
      requires Ready() && Inodes() != AllInodes()
      modifies this`maps, this`iSearch
      ensures Ready() && first == second
      ensures Inodes() == old(Inodes()) + {first}
    {
      var err;
      first, err := AllocInode();
      FreeInode(first);
      second, err := AllocInode();
    }

    /** Allocates the first free zone on the way up and around from the word of `zstart`, if
        that is a data zone other than the first; from the word of the hint, if it is less; and
        from the start of the map, if it is no zone of the device. The hint becomes the zone
        allocated if that is lower, or if there was none. */
    method AllocZone(zstart: nat) returns (z: nat, err: Error)
      requires Ready()
      modifies this`maps, this`zSearch
      ensures Ready()
      ensures err == OK || (err == ENOSPC && z == NO_ZONE)
      ensures err == OK <==> old(Zones()) != AllZones()
      ensures err == OK ==> IsDataZone(devinfo, z) && z != NO_ZONE && z !in old(Zones())
      ensures Zones() == if err == OK then old(Zones()) + {z} else old(Zones())
      ensures Inodes() == old(Inodes())
      ensures err == OK ==>
                FirstAround(devinfo, old(Zones()), zstart, old(zSearch), z)
      ensures err == OK ==>
                var bit := z - (devinfo.firstdatazone - 1);
                zSearch == if bit < old(zSearch) || old(zSearch) == 0 then bit else old(zSearch)
      ensures err != OK ==> zSearch == old(zSearch)
    {
      hide ZonesOf, ZoneMarked, DataZones, ValidMaps, MarksOf, FirstAround;
      hide Layout.FirstFrom, Layout.All, Layout.Find, Layout.StoreAt, Layout.InMaps;
      var bstart;
      if zstart <= devinfo.firstdatazone {
        bstart := zSearch;
      } else {
        bstart := zstart - (devinfo.firstdatazone - 1);
      }
      SearchMeans(devinfo, perBlock, maps, ZMAP, bstart);
      var bit := AllocBit(ZMAP, bstart);
      ZonesFull(devinfo, perBlock, old(Marks(ZMAP)));
      if bit == NO_BIT {
        return NO_ZONE, ENOSPC;
      }
      NearestZone(devinfo, perBlock, old(Marks(ZMAP)), zstart, old(zSearch), bstart, bit);
      if bit < zSearch || zSearch == NO_BIT {
        zSearch := bit;
      }
      ZonesSwitch(devinfo, old(Marks(ZMAP)), bit);
      return (devinfo.firstdatazone - 1) + bit, OK;
    }

    /** Frees a zone. A number that is no data zone is ignored; a free zone panics. */
    method FreeZone(znum: nat)
      requires Ready()
      requires znum in AllZones() ==> znum in Zones()
      modifies this`maps, this`zSearch
      ensures Ready()
      ensures Zones() == old(Zones()) - {znum}
      ensures Inodes() == old(Inodes())
      ensures
        if devinfo.firstdatazone <= znum < devinfo.zones then
          var bit := znum - (devinfo.firstdatazone - 1);
          zSearch == if bit < old(zSearch) || old(zSearch) == 0 then bit else old(zSearch)
        else
          zSearch == old(zSearch)
    {
      if znum < devinfo.firstdatazone || znum >= devinfo.zones {
        return;
      }
      var bit := znum - (devinfo.firstdatazone - 1);
      InUse(ZMAP, bit);
      FreeBit(ZMAP, bit);
      ZonesSwitch(devinfo, old(Marks(ZMAP)), bit);
      if bit < zSearch || zSearch == NO_BIT {
        zSearch := bit;
      }
    }
  }
}
