// The evdev proximity-switch driver (src/drv-input-proximity.c): the kernel
// bit macros, the parse of the switch-capability bitmask, discovery, the
// assembly of `struct input_event` records from a non-blocking channel, and
// the watch-id state machine behind set_polling.

module InputProximity {
  import opened SensorTypes
  import opened Parsing
  import opened Arith
  import opened Drivers

  // ---------------------------------------------------------------------------
  // Constants of the Linux input ABI (include/uapi/linux/input-event-codes.h)

  const EV_SW: nat := 0x05
  const SW_FRONT_PROXIMITY: nat := 0x0b
  const SW_MAX: nat := 0x10
  const SW_CNT: nat := SW_MAX + 1

  /** At src/drv-input-proximity.c:80 `bitmask` is a `glong *` parameter, so
      `sizeof (bitmask)` is the size of a pointer, not of the array. */
  const SIZEOF_POINTER: nat := 8

  // ---------------------------------------------------------------------------
  // Bit macros (src/drv-input-proximity.c:11-16)

  function NBits(x: nat): nat
    requires x >= 1
  {
    (x - 1) / BITS_PER_LONG + 1
  }

  function Off(x: nat): nat { x % BITS_PER_LONG }

  function Long(x: nat): nat { x / BITS_PER_LONG }

  function Pow2(k: nat): (p: nat)
    ensures p >= 1
  {
    if k == 0 then 1 else 2 * Pow2(k - 1)
  }

  /** Bit `k` of the word `w`: (w >> k) & 1. */
  function BitOf(w: nat, k: nat): (b: nat)
    ensures b <= 1
  {
    (w / Pow2(k)) % 2
  }

  /** test_bit (bit, array): bit OFF(bit) of word LONG(bit). */
  function TestBit(bit: nat, words: seq<Word>): (b: nat)
    requires Long(bit) < |words|
    ensures b <= 1
  {
    BitOf(words[Long(bit)], Off(bit))
  }

  /** The switch bitmap the driver declares on the stack is one word long. */
  lemma SwitchBitmapIsOneWord()
    ensures NBits(SW_MAX) == 1 && Long(SW_FRONT_PROXIMITY) == 0 && Off(SW_FRONT_PROXIMITY) == 11
  {
  }

  // ---------------------------------------------------------------------------
  // Population count and `val &= (val - 1)`

  /** Bitwise AND of two non-negative integers. */
  function BitAnd(a: nat, b: nat): (r: nat)
    ensures r <= a && r <= b
  {
    if a == 0 || b == 0 then 0
    else 2 * BitAnd(a / 2, b / 2) + (if a % 2 == 1 && b % 2 == 1 then 1 else 0)
  }

  /** The value of the lowest set bit of `v`. */
  function LowestSetBit(v: nat): (p: nat)
    requires v > 0
    ensures 1 <= p <= v
  {
    if v % 2 == 1 then 1 else 2 * LowestSetBit(v / 2)
  }

  /** The number of set bits of `v`. */
  function PopCount(v: nat): nat
  {
    if v == 0 then 0 else v % 2 + PopCount(v / 2)
  }

  /** The number of set bits of `v` below position `n`, bit by bit as BitOf sees them. */
  function CountBits(v: nat, n: nat): nat
  {
    if n == 0 then 0 else CountBits(v, n - 1) + BitOf(v, n - 1)
  }

  lemma {:induction false} BitAndSelf(x: nat)
    ensures BitAnd(x, x) == x
  {
    if x > 0 {
      BitAndSelf(x / 2);
    }
  }

  /** `v & (v - 1)` clears exactly the lowest set bit of `v`. */
  lemma {:induction false} AndPredecessor(v: nat)
    requires v > 0
    ensures BitAnd(v, v - 1) == v - LowestSetBit(v)
  {
    if v % 2 == 1 {
      if v > 1 {
        assert (v - 1) / 2 == v / 2;
        BitAndSelf(v / 2);
      }
    } else {
      assert (v - 1) / 2 == v / 2 - 1 && (v - 1) % 2 == 1;
      AndPredecessor(v / 2);
    }
  }

  lemma {:induction false} PopCountDouble(x: nat)
    ensures PopCount(2 * x) == PopCount(x)
  {
    if x > 0 {
      assert (2 * x) / 2 == x;
    }
  }

  /** Clearing the lowest set bit removes exactly one set bit. */
  lemma {:induction false} PopCountClearLowest(v: nat)
    requires v > 0
    ensures PopCount(v - LowestSetBit(v)) + 1 == PopCount(v)
  {
    if v % 2 == 1 {
      assert (v - 1) / 2 == v / 2 && (v - 1) % 2 == 0;
    } else {
      var h := v / 2;
      PopCountClearLowest(h);
      assert v - LowestSetBit(v) == 2 * (h - LowestSetBit(h));
      PopCountDouble(h - LowestSetBit(h));
    }
  }

  /** One step of the counting loop at src/drv-input-proximity.c:43-46. */
  lemma ClearLowestStep(v: Word)
    requires v > 0
    ensures BitAnd(v, v - 1) < v
    ensures PopCount(BitAnd(v, v - 1)) + 1 == PopCount(v)
  {
    AndPredecessor(v);
    PopCountClearLowest(v);
  }

  lemma BitOfShift(v: nat, k: nat)
    ensures BitOf(v, k + 1) == BitOf(v / 2, k)
  {
    var p := Pow2(k);
    var h, q := v / 2, (v / 2) / p;
    assert v == 2 * h + v % 2;
    assert h == p * q + h % p;
    assert v == (2 * p) * q + (2 * (h % p) + v % 2);
    DivUnique(v, 2 * p, q, 2 * (h % p) + v % 2);
  }

  lemma {:induction false} CountBitsShift(v: nat, n: nat)
    requires n >= 1
    ensures CountBits(v, n) == BitOf(v, 0) + CountBits(v / 2, n - 1)
  {
    if n > 1 {
      CountBitsShift(v, n - 1);
      BitOfShift(v, n - 2);
    }
  }

  /** The population count is the number of positions at which test_bit's
      notion of a bit reads 1. */
  lemma {:induction false} PopCountIsCountBits(v: nat, n: nat)
    requires v < Pow2(n)
    ensures PopCount(v) == CountBits(v, n)
  {
    if n == 0 {
      assert v == 0;
    } else {
      CountBitsShift(v, n);
      PopCountIsCountBits(v / 2, n - 1);
    }
  }

  // ---------------------------------------------------------------------------
  // input_str_to_bitmask (src/drv-input-proximity.c:28-51)

  /** The words of a capability string: token n-1-j lands in word j, so the
      last space-separated hex word becomes word 0. */
  function ParsedWords(tokens: seq<string>): (words: seq<Word>)
    ensures |words| == |tokens|
  {
    if tokens == [] then [] else ParsedWords(tokens[1..]) + [Strtoul16(tokens[0])]
  }

  /** Word j holds the value of token n-1-j. */
  lemma {:induction false} ParsedWordAt(tokens: seq<string>, j: nat)
    requires j < |tokens|
    ensures ParsedWords(tokens)[j] == Strtoul16(tokens[|tokens| - 1 - j])
    decreases |tokens|
  {
    if j < |tokens| - 1 {
      ParsedWordAt(tokens[1..], j);
    }
  }

  /** The number of set bits over all words. */
  function TotalBits(words: seq<Word>): nat
  {
    if words == [] then 0 else TotalBits(words[..|words| - 1]) + PopCount(words[|words| - 1])
  }

  /** The words that input_str_to_bitmask (s, bitmask, maxSize) stores. */
  function BitmaskOf(s: string, maxSize: nat): seq<Word>
  {
    ParsedWords(GStrSplit(s, maxSize))
  }

  /** A bitmap printed word by word in hex, most significant first,
      separated by spaces and ended by a newline, parses back into its words,
      as long as it has no more words than the split allows. */
  lemma ParseOfPrintedBitmap(words: seq<Word>, maxSize: nat)
    requires 1 <= |words| && (maxSize < 1 || |words| <= maxSize)
    ensures BitmaskOf(PrintedBitmap(words) + "\n", maxSize) == words
  {
    SplitOfPrintedBitmap(words, maxSize);
    ParseOfHexTokens(words);
  }

  /** The tokens with the final newline attached to the last one. */
  function NewlineLast(ts: seq<string>): (r: seq<string>)
    requires |ts| >= 1
    ensures |r| == |ts|
  {
    ts[..|ts| - 1] + [ts[|ts| - 1] + "\n"]
  }

  lemma SplitOfPrintedBitmap(words: seq<Word>, maxSize: nat)
    requires 1 <= |words| && (maxSize < 1 || |words| <= maxSize)
    ensures GStrSplit(PrintedBitmap(words) + "\n", maxSize) == NewlineLast(HexTokens(words))
  {
    var ts := HexTokens(words);
    HexTokensShape(words);
    var tsn := NewlineLast(ts);
    JoinNewline(ts);
    forall i | 0 <= i < |tsn| ensures tsn[i] != [] && ' ' !in tsn[i] {
      assert ts[i] in ts;
      if i == |ts| - 1 {
        assert ' ' !in "\n";
        NoSpaceAppend(ts[i], "\n");
      }
    }
    SplitJoin(tsn, maxSize);
  }

  lemma ParseOfHexTokens(words: seq<Word>)
    requires 1 <= |words|
    ensures ParsedWords(NewlineLast(HexTokens(words))) == words
  {
    var tsn := NewlineLast(HexTokens(words));
    var n := |words|;
    forall j | 0 <= j < n ensures ParsedWords(tsn)[j] == words[j] {
      ParsedWordAt(tsn, j);
      if j == 0 {
        Strtoul16OfHex(words[0], "\n");
      } else {
        Strtoul16OfHex(words[j], []);
        assert tsn[n - 1 - j] == Numeral(words[j], 16) + [];
      }
    }
  }

  /** The hex words of a bitmap, most significant first. */
  function HexTokens(words: seq<Word>): (ts: seq<string>)
    ensures |ts| == |words|
  {
    seq(|words|, i requires 0 <= i < |words| => Numeral(words[|words| - 1 - i], 16))
  }

  function PrintedBitmap(words: seq<Word>): string
  {
    Join(HexTokens(words))
  }

  lemma HexTokensShape(words: seq<Word>)
    ensures forall t :: t in HexTokens(words) ==> t != [] && ' ' !in t
  {
    var ts := HexTokens(words);
    forall i | 0 <= i < |ts| ensures ts[i] != [] && ' ' !in ts[i] {
      NumeralHasNoSpace(words[|words| - 1 - i]);
    }
  }

  lemma NumeralHasNoSpace(w: nat)
    ensures ' ' !in Numeral(w, 16)
  {
    var ds := Numeral(w, 16);
    NumeralDigits(w, 16);
    assert !IsDigit(' ', 16);
    forall k | 0 <= k < |ds| ensures ds[k] != ' ' {
      assert IsDigit(ds[k], 16);
    }
  }

  lemma NoSpaceAppend(a: string, b: string)
    requires ' ' !in a && ' ' !in b
    ensures ' ' !in a + b
  {
    forall k | 0 <= k < |a + b| ensures (a + b)[k] != ' ' {
      if k < |a| {
        assert a[k] in a;
      } else {
        assert b[k - |a|] in b;
      }
    }
  }

  /** Appending the newline to the text appends it to the last token. */
  lemma {:induction false} JoinNewline(ts: seq<string>)
    requires |ts| >= 1
    ensures Join(ts) + "\n" == Join(ts[..|ts| - 1] + [ts[|ts| - 1] + "\n"])
    decreases |ts|
  {
    if |ts| > 1 {
      var tsn := ts[..|ts| - 1] + [ts[|ts| - 1] + "\n"];
      JoinNewline(ts[1..]);
      assert ts[1..][..|ts| - 2] + [ts[|ts| - 1] + "\n"] == tsn[1..];
    }
  }

  /** memset (bitmask, 0, n * sizeof (long)). */
  method Memset(bitmask: array<Word>, n: nat)
    requires n <= bitmask.Length
    modifies bitmask
    ensures forall k :: 0 <= k < bitmask.Length ==> bitmask[k] == if k < n then 0 else old(bitmask[k])
  {
    forall k | 0 <= k < n {
      bitmask[k] := 0;
    }
  }

  lemma TotalBitsSnoc(words: seq<Word>, j: nat)
    requires j < |words|
    ensures TotalBits(words[..j + 1]) == TotalBits(words[..j]) + PopCount(words[j])
  {
    assert words[..j + 1][..j] == words[..j];
  }

  /** input_str_to_bitmask: clear max_size bytes, split the text into at most
      max_size tokens, store token n-1-j in word j and count the set bits by
      clearing the lowest one until the value is zero. */
  method InputStrToBitmask(s: string, bitmask: array<Word>, maxSize: nat) returns (numBitsSet: nat)
    requires maxSize % BYTES_PER_LONG == 0 && maxSize / BYTES_PER_LONG <= bitmask.Length
    requires |GStrSplit(s, maxSize)| <= bitmask.Length
    modifies bitmask
    ensures var words := BitmaskOf(s, maxSize);
      && bitmask[..|words|] == words
      && (forall j :: |words| <= j < bitmask.Length ==>
            bitmask[j] == if j < maxSize / BYTES_PER_LONG then 0 else old(bitmask[j]))
      && numBitsSet == TotalBits(words)
  {
    Memset(bitmask, maxSize / BYTES_PER_LONG);
    var v := GStrSplit(s, maxSize);
    ghost var words := ParsedWords(v);
    numBitsSet := 0;
    var i: int := |v| - 1;
    var j: nat := 0;
    while i >= 0
      invariant -1 <= i < |v| && j == |v| - 1 - i
      invariant forall k :: 0 <= k < j ==> bitmask[k] == words[k]
      invariant forall k :: j <= k < bitmask.Length ==>
        bitmask[k] == if k < maxSize / BYTES_PER_LONG then 0 else old(bitmask[k])
      invariant numBitsSet == TotalBits(words[..j])
    {
      var val := Strtoul16(v[i]);
      bitmask[j] := val;
      ghost var word := val;
      ParsedWordAt(v, j);
      assert forall k :: 0 <= k <= j ==> bitmask[k] == words[k];
      while val != 0
        invariant numBitsSet + PopCount(val) == TotalBits(words[..j]) + PopCount(word)
        modifies {}
        decreases val
      {
        numBitsSet := numBitsSet + 1;
        ClearLowestStep(val);
        val := BitAnd(val, val - 1);
      }
      TotalBitsSnoc(words, j);
      i, j := i - 1, j + 1;
    }
    assert words[..j] == words;
    assert bitmask[..|words|] == words;
  }

  // ---------------------------------------------------------------------------
  // switch_get_bitmask and input_proximity_discover

  /** The verdict of switch_get_bitmask: the capability file exists, was
      read, and holds at least one and fewer than SW_CNT set bits. */
  predicate SwitchBitmaskOk(caps: SysfsFile)
  {
    caps.Contents? && 0 < TotalBits(BitmaskOf(caps.text, SIZEOF_POINTER)) < SW_CNT
  }

  lemma SomeBitsSomeWord(words: seq<Word>)
    requires TotalBits(words) > 0
    ensures |words| > 0
  {
  }

  /** input_proximity_discover: the bitmask is accepted and its
      SW_FRONT_PROXIMITY bit is set. */
  predicate Discovers(caps: SysfsFile)
  {
    SwitchBitmaskOk(caps) &&
    var words := BitmaskOf(caps.text, SIZEOF_POINTER);
    SomeBitsSomeWord(words);
    TestBit(SW_FRONT_PROXIMITY, words) == 1
  }

  /** Once the bitmask is accepted, discovery depends on word 0 alone,
      whatever the rest of the caller's array holds. */
  lemma DiscoversOnPrefix(caps: SysfsFile, arr: seq<Word>)
    requires SwitchBitmaskOk(caps) && |arr| >= 1
    requires var words := BitmaskOf(caps.text, SIZEOF_POINTER);
      |words| <= |arr| && arr[..|words|] == words
    ensures Discovers(caps) == (TestBit(SW_FRONT_PROXIMITY, arr) == 1)
  {
    var words := BitmaskOf(caps.text, SIZEOF_POINTER);
    SomeBitsSomeWord(words);
    assert arr[0] == arr[..|words|][0];
  }

  method SwitchGetBitmask(caps: SysfsFile, bitmask: array<Word>) returns (ok: bool)
    requires SIZEOF_POINTER / BYTES_PER_LONG <= bitmask.Length
    requires caps.Contents? ==> |GStrSplit(caps.text, SIZEOF_POINTER)| <= bitmask.Length
    modifies bitmask
    ensures ok == SwitchBitmaskOk(caps)
    ensures caps.Contents? ==> bitmask[..|BitmaskOf(caps.text, SIZEOF_POINTER)|] == BitmaskOf(caps.text, SIZEOF_POINTER)
    ensures caps.Contents? && caps.text == [] ==> bitmask[0] == 0
    ensures caps.Contents? ==>
      var filled := |BitmaskOf(caps.text, SIZEOF_POINTER)|;
      forall j :: (if filled < 1 then 1 else filled) <= j < bitmask.Length ==> bitmask[j] == old(bitmask[j])
    ensures !caps.Contents? ==> bitmask[..] == old(bitmask[..])
  {
    if !caps.Contents? {
      return false;
    }
    var numBits := InputStrToBitmask(caps.text, bitmask, SIZEOF_POINTER);
    if numBits == 0 || numBits >= SW_CNT {
      return false;
    }
    return true;
  }

  /** input_proximity_discover over the caller's stack array `bitmask`, whose
      old contents are garbage: the verdict does not depend on them, because
      test_bit (SW_FRONT_PROXIMITY, ...) only reads word 0 and word 0 is
      always overwritten. */
  method InputProximityDiscover(device: UdevDevice, bitmask: array<Word>) returns (found: bool)
    requires bitmask.Length == NBits(SW_MAX)
    requires device.switchCaps.Contents? ==> |GStrSplit(device.switchCaps.text, SIZEOF_POINTER)| <= bitmask.Length
    modifies bitmask
    ensures found == Discovers(device.switchCaps)
  {
    var ok := SwitchGetBitmask(device.switchCaps, bitmask);
    if !ok {
      return false;
    }
    DiscoversOnPrefix(device.switchCaps, bitmask[..]);
    if TestBit(SW_FRONT_PROXIMITY, bitmask[..]) == 0 {
      return false;
    }
    return true;
  }

  // ---------------------------------------------------------------------------
  // Records of `struct input_event`

  /** sizeof (struct input_event): a timeval followed by the 16-bit type, the
      16-bit code and the 32-bit value, so at least 8 bytes. */
  type RecordSize = n: nat | n >= 8 witness 24

  /** The little-endian 16-bit `type` field of a record. */
  function EventType(rec: seq<Byte>): nat
    requires |rec| >= 8
  {
    rec[|rec| - 8] as nat + 0x100 * rec[|rec| - 7] as nat
  }

  /** The little-endian 16-bit `code` field of a record. */
  function EventCode(rec: seq<Byte>): nat
    requires |rec| >= 8
  {
    rec[|rec| - 6] as nat + 0x100 * rec[|rec| - 5] as nat
  }

  /** The complete records at the front of a byte stream, in order. */
  function RecordsOf(s: seq<Byte>, size: RecordSize): seq<seq<Byte>>
    decreases |s|
  {
    if |s| < size then [] else [s[..size]] + RecordsOf(s[size..], size)
  }

  /** The bytes after the last complete record: the partial record. */
  function Leftover(s: seq<Byte>, size: RecordSize): (rest: seq<Byte>)
    ensures |rest| < size
    decreases |s|
  {
    if |s| < size then s else Leftover(s[size..], size)
  }

  function Concat(recs: seq<seq<Byte>>): seq<Byte>
  {
    if recs == [] then [] else recs[0] + Concat(recs[1..])
  }

  /** Cutting a stream into records loses and invents nothing: every record
      has the record size, and the records followed by the partial record
      are the stream. */
  lemma {:induction false} StreamSplit(s: seq<Byte>, size: RecordSize)
    ensures forall i :: 0 <= i < |RecordsOf(s, size)| ==> |RecordsOf(s, size)[i]| == size
    ensures Concat(RecordsOf(s, size)) + Leftover(s, size) == s
    decreases |s|
  {
    if |s| >= size {
      StreamSplit(s[size..], size);
      var recs := RecordsOf(s, size);
      assert recs == [s[..size]] + RecordsOf(s[size..], size);
      assert recs[1..] == RecordsOf(s[size..], size);
      assert s == s[..size] + s[size..];
    }
  }

  /** The stream holds |s| / size complete records and |s| % size bytes of a
      partial one. */
  lemma {:induction false} StreamCounts(s: seq<Byte>, size: RecordSize)
    ensures |RecordsOf(s, size)| == |s| / size && |Leftover(s, size)| == |s| % size
    decreases |s|
  {
    if |s| < size {
      DivUnique(|s|, size, 0, |s|);
    } else {
      StreamCounts(s[size..], size);
      var n := |s| - size;
      assert n == size * (n / size) + n % size;
      DivUnique(|s|, size, n / size + 1, n % size);
    }
  }

  lemma AppendAssoc<T>(a: seq<T>, b: seq<T>, c: seq<T>)
    ensures a + (b + c) == (a + b) + c
  {
  }

  /** A stream that starts with a whole record `rec`. */
  lemma TakeRecord(s: seq<Byte>, size: RecordSize, rec: seq<Byte>, rest: seq<Byte>)
    requires |rec| == size && s == rec + rest
    ensures RecordsOf(s, size) == [rec] + RecordsOf(rest, size)
    ensures Leftover(s, size) == Leftover(rest, size)
  {
    assert s[..size] == rec && s[size..] == rest;
  }

  function NearOf(bit: nat): ProximityNear
  {
    if bit != 0 then NearTrue else NearFalse
  }

  /** A record that reports the front proximity switch. */
  predicate IsProximitySwitch(rec: seq<Byte>)
  {
    |rec| >= 8 && EventType(rec) == EV_SW && EventCode(rec) == SW_FRONT_PROXIMITY
  }

  /** The reading one complete record produces, given the answer of the
      EVIOCGSW query made for it (None when the ioctl fails). */
  function ReadingOf(rec: seq<Byte>, state: Option<Word>): (r: seq<ProximityNear>)
    ensures |r| <= 1
  {
    if IsProximitySwitch(rec) && state.Some? then
      [NearOf(TestBit(SW_FRONT_PROXIMITY, [state.value]))]
    else []
  }

  /** The readings a sequence of records produces; query(k) is the EVIOCGSW
      answer for record k. */
  function Readings(recs: seq<seq<Byte>>, query: nat -> Option<Word>): seq<ProximityNear>
  {
    if recs == [] then []
    else Readings(recs[..|recs| - 1], query) + ReadingOf(recs[|recs| - 1], query(|recs| - 1))
  }

  /** last_switch_state after a sequence of records. */
  function LastState(recs: seq<seq<Byte>>, query: nat -> Option<Word>, init: nat): nat
  {
    if recs == [] then init
    else
      var rec := recs[|recs| - 1];
      if IsProximitySwitch(rec) && query(|recs| - 1).Some? then
        TestBit(SW_FRONT_PROXIMITY, [query(|recs| - 1).value])
      else LastState(recs[..|recs| - 1], query, init)
  }

  /** What one more record adds to the readings and to the state. */
  lemma RecordStep(recs: seq<seq<Byte>>, rec: seq<Byte>, query: nat -> Option<Word>, init: nat)
    ensures Readings(recs + [rec], query) == Readings(recs, query) + ReadingOf(rec, query(|recs|))
    ensures LastState(recs + [rec], query, init) ==
      if IsProximitySwitch(rec) && query(|recs|).Some? then TestBit(SW_FRONT_PROXIMITY, [query(|recs|).value])
      else LastState(recs, query, init)
  {
    assert (recs + [rec])[..|recs|] == recs;
  }

  /** Every complete qualifying record yields exactly one reading: there is
      no comparison with the previous state, so a record repeated twice is
      reported twice. */
  lemma NoDebounce(rec: seq<Byte>, size: RecordSize, query: nat -> Option<Word>)
    requires |rec| == size && IsProximitySwitch(rec)
    requires query(0).Some? && query(1) == query(0)
    ensures var r := NearOf(TestBit(SW_FRONT_PROXIMITY, [query(0).value]));
      Readings(RecordsOf(rec + rec, size), query) == [r, r]
  {
    var s := rec + rec;
    assert s[..size] == rec && s[size..] == rec;
    assert rec[..size] == rec && rec[size..] == [];
    assert RecordsOf(rec, size) == [rec];
    assert RecordsOf(s, size) == [rec, rec];
    RecordStep([], rec, query, 0);
    RecordStep([rec], rec, query, 0);
  }

  // ---------------------------------------------------------------------------
  // Per-device state (DrvData, src/drv-input-proximity.c:18-26)

  datatype IOCondition = IOCondition(input: bool, hup: bool, err: bool, nval: bool)

  /** What the system answers while watch_input_proximity sets up a watch:
      whether open() of the device file succeeds, the initial EVIOCGSW
      answer, whether the binary encoding can be set, and the id GLib gives
      the new watch. */
  datatype WatchEnv = WatchEnv(openOk: bool, initialState: Option<Word>, encodingOk: bool, sourceId: SourceId)

  /** watch_input_proximity succeeds: a non-empty device file that opens, an
      initial switch state, and a binary channel. */
  predicate WatchSucceeds(device: UdevDevice, env: WatchEnv)
  {
    device.deviceFile.Some? && device.deviceFile.value != [] &&
    env.openOk && env.initialState.Some? && env.encodingOk
  }

  /** g_io_channel_read_chars copying `src` into the event buffer at `at`. */
  method ReadChars(buf: array<Byte>, at: nat, src: seq<Byte>)
    requires at + |src| <= buf.Length
    modifies buf
    ensures buf[..at + |src|] == old(buf[..at]) + src
    ensures buf[at + |src|..] == old(buf[at + |src|..])
  {
    forall i | at <= i < at + |src| {
      buf[i] := src[i - at];
    }
  }

  class ProximityData {
    const recordSize: RecordSize
    const event: array<Byte>
    var dev: Option<UdevDevice>
    var nativePath: Option<string>
    var lastSwitchState: nat
    var offset: nat
    var watchId: nat

    ghost predicate Valid()
      reads this
    {
      event.Length == recordSize && offset < recordSize && lastSwitchState <= 1
    }

    /** The bytes of the record assembled so far. */
    ghost function Partial(): seq<Byte>
      reads this, event
      requires Valid()
    {
      event[..offset]
    }

    /** input_proximity_open: a zeroed DrvData that holds the device. */
    constructor Open(device: UdevDevice, recordSize: RecordSize)
      ensures Valid() && fresh(event)
      ensures this.recordSize == recordSize
      ensures dev == Some(device) && nativePath == Some(device.sysfsPath)
      ensures offset == 0 && watchId == 0 && lastSwitchState == 0
    {
      this.recordSize := recordSize;
      event := new Byte[recordSize](_ => 0);
      dev := Some(device);
      nativePath := Some(device.sysfsPath);
      lastSwitchState := 0;
      offset := 0;
      watchId := 0;
    }

    /** watch_input_proximity (src/drv-input-proximity.c:147-194). */
    method WatchInputProximity(env: WatchEnv) returns (ok: bool)
      requires Valid() && dev.Some?
      modifies this
      ensures Valid()
      ensures offset == old(offset) && dev == old(dev) && nativePath == old(nativePath)
      ensures ok == WatchSucceeds(dev.value, env)
      ensures watchId == if ok then env.sourceId else old(watchId)
      ensures lastSwitchState == if ok then TestBit(SW_FRONT_PROXIMITY, [env.initialState.value]) else old(lastSwitchState)
    {
      var deviceFile := dev.value.deviceFile;
      if deviceFile.None? || deviceFile.value == [] {
        return false;
      }
      if !env.openOk {
        return false;
      }
      if env.initialState.None? {
        return false;
      }
      if !env.encodingOk {
        return false;
      }
      watchId := env.sourceId;
      lastSwitchState := TestBit(SW_FRONT_PROXIMITY, [env.initialState.value]);
      return true;
    }

    /** input_proximity_set_polling (src/drv-input-proximity.c:215-230). */
    method SetPolling(state: bool, env: WatchEnv)
      requires Valid() && dev.Some?
      modifies this
      ensures Valid()
      ensures offset == old(offset) && dev == old(dev) && nativePath == old(nativePath)
      ensures (old(watchId) > 0) == state ==> watchId == old(watchId) && lastSwitchState == old(lastSwitchState)
      ensures !state ==> watchId == 0 && lastSwitchState == old(lastSwitchState)
      ensures state && old(watchId) == 0 ==>
        if WatchSucceeds(dev.value, env) then
          watchId == env.sourceId && lastSwitchState == TestBit(SW_FRONT_PROXIMITY, [env.initialState.value])
        else
          watchId == 0 && lastSwitchState == old(lastSwitchState)
    {
      if watchId > 0 && state {
        return;
      }
      if watchId == 0 && !state {
        return;
      }
      watchId := 0;
      if state {
        var _ := WatchInputProximity(env);
      }
    }

    /** proximity_changed (src/drv-input-proximity.c:94-145): one dispatch of
        the watch. `pending` is what the channel holds now; reads stop when it
        is exhausted (G_IO_STATUS_AGAIN). query(k) is the EVIOCGSW answer for
        the k-th record completed in this dispatch. */
    method ProximityChanged(condition: IOCondition, pending: seq<Byte>, query: nat -> Option<Word>)
      returns (keep: bool, emitted: seq<ProximityNear>)
      requires Valid() && watchId != 0
      modifies this, event
      ensures Valid()
      ensures dev == old(dev) && watchId == old(watchId) && nativePath == old(nativePath)
      ensures condition.hup || condition.err || condition.nval ==>
        !keep && emitted == [] && offset == old(offset) && lastSwitchState == old(lastSwitchState) &&
        event[..] == old(event[..])
      ensures !(condition.hup || condition.err || condition.nval) ==>
        var s := old(Partial()) + pending;
        && keep
        && Partial() == Leftover(s, recordSize)
        && emitted == Readings(RecordsOf(s, recordSize), query)
        && lastSwitchState == LastState(RecordsOf(s, recordSize), query, old(lastSwitchState))
    {
      if condition.hup || condition.err || condition.nval {
        return false, [];
      }
      keep := true;
      emitted := [];
      ghost var s := event[..offset] + pending;
      ghost var initState := lastSwitchState;
      ghost var rem := s;
      ghost var recs: seq<seq<Byte>> := [];
      var pos := 0;
      var k := 0;
      while pos < |pending|
        invariant Valid()
        invariant dev == old(dev) && watchId == old(watchId) && nativePath == old(nativePath)
        invariant 0 <= pos <= |pending| && k == |recs|
        invariant rem == event[..offset] + pending[pos..]
        invariant RecordsOf(s, recordSize) == recs + RecordsOf(rem, recordSize)
        invariant Leftover(s, recordSize) == Leftover(rem, recordSize)
        invariant emitted == Readings(recs, query)
        invariant lastSwitchState == LastState(recs, query, initState)
        decreases |pending| - pos
      {
        var want := recordSize - offset;
        var n := if |pending| - pos < want then |pending| - pos else want;
        assert pending[pos..] == pending[pos..pos + n] + pending[pos + n..];
        var complete := ReadEvent(pending[pos..pos + n]);
        pos := pos + n;
        if !complete {
          break;
        }
        ghost var rec := event[..];
        TakeRecord(rem, recordSize, rec, pending[pos..]);
        RecordStep(recs, rec, query, initState);
        var reading := HandleEvent(query(k));
        emitted := emitted + reading;
        assert RecordsOf(s, recordSize) == (recs + [rec]) + RecordsOf(pending[pos..], recordSize) by {
          AppendAssoc(recs, [rec], RecordsOf(pending[pos..], recordSize));
        }
        recs, rem := recs + [rec], pending[pos..];
        k := k + 1;
      }
      assert rem == event[..offset];
      assert RecordsOf(rem, recordSize) == [] && recs + [] == recs;
    }

    /** One g_io_channel_read_chars into the event buffer at the current
        offset (src/drv-input-proximity.c:109-118); when the record is still
        short the offset advances, otherwise the record is complete. */
    method ReadEvent(chunk: seq<Byte>) returns (complete: bool)
      requires Valid() && offset + |chunk| <= recordSize
      modifies this, event
      ensures Valid()
      ensures dev == old(dev) && watchId == old(watchId) && nativePath == old(nativePath)
      ensures lastSwitchState == old(lastSwitchState)
      ensures complete <==> old(offset) + |chunk| == recordSize
      ensures complete ==> offset == old(offset) && event[..] == old(Partial()) + chunk
      ensures !complete ==> offset == old(offset) + |chunk| && Partial() == old(Partial()) + chunk
    {
      ReadChars(event, offset, chunk);
      if offset + |chunk| < recordSize {
        // not enough data
        offset := offset + |chunk|;
        return false;
      }
      return true;
    }

    /** The body of proximity_changed's loop once a whole record is in
        (src/drv-input-proximity.c:120-142): reset the offset, skip records
        other than SW_FRONT_PROXIMITY switch events, and otherwise take the
        EVIOCGSW answer `answer`, skipping the record when the ioctl fails. */
    method HandleEvent(answer: Option<Word>) returns (reading: seq<ProximityNear>)
      requires Valid()
      modifies this
      ensures Valid() && offset == 0
      ensures dev == old(dev) && watchId == old(watchId) && nativePath == old(nativePath)
      ensures reading == ReadingOf(event[..], answer)
      ensures lastSwitchState ==
        if IsProximitySwitch(event[..]) && answer.Some? then TestBit(SW_FRONT_PROXIMITY, [answer.value])
        else old(lastSwitchState)
    {
      offset := 0;
      reading := [];
      var rec := event[..];
      var eventType := EventType(rec);
      var eventCode := EventCode(rec);
      if eventType == EV_SW && eventCode == SW_FRONT_PROXIMITY {
        if answer.Some? {
          lastSwitchState := TestBit(eventCode, [answer.value]);
          reading := [NearOf(lastSwitchState)];
        }
      }
    }

    /** input_proximity_close: the device reference is dropped; the caller
        releases the state itself. */
    method Close()
      requires Valid()
      modifies this
      ensures Valid() && dev.None? && nativePath == old(nativePath)
      ensures watchId == old(watchId) && offset == old(offset) && lastSwitchState == old(lastSwitchState)
    {
      dev := None;
    }
  }

  /** A hang-up makes proximity_changed return FALSE, so GLib drops the
      watch, but watch_id keeps its old value: the set_polling(TRUE) that
      follows returns at once and the switch is not watched again. */
  method HangUpLeavesStaleWatch(p: ProximityData, pending: seq<Byte>, query: nat -> Option<Word>, env: WatchEnv)
    returns (keep: bool)
    requires p.Valid() && p.watchId != 0 && p.dev.Some?
    modifies p, p.event
    ensures !keep
    ensures p.Valid() && p.watchId == old(p.watchId) && p.watchId != 0
    ensures p.lastSwitchState == old(p.lastSwitchState) && p.dev == old(p.dev)
    ensures p.offset == old(p.offset) && p.Partial() == old(p.Partial())
  {
    var emitted;
    keep, emitted := p.ProximityChanged(IOCondition(false, true, false, false), pending, query);
    p.SetPolling(true, env);
  }

  // ---------------------------------------------------------------------------
  // Properties of record assembly

  /** A read that does not complete the record only grows the partial
      record: no reading. */
  lemma ShortRead(partial: seq<Byte>, pending: seq<Byte>, size: RecordSize)
    requires |partial| + |pending| < size
    ensures RecordsOf(partial + pending, size) == []
    ensures Leftover(partial + pending, size) == partial + pending
  {
  }

  /** A proximity record delivered in two pieces: nothing after the first
      piece, exactly one reading after the second. */
  lemma SplitDelivery(rec: seq<Byte>, cut: nat, query: nat -> Option<Word>)
    requires 8 <= |rec| && 0 < cut < |rec|
    requires IsProximitySwitch(rec) && query(0).Some?
    ensures var size: RecordSize := |rec|;
      var first := rec[..cut];
      && RecordsOf(first, size) == [] && Leftover(first, size) == first
      && Leftover(Leftover(first, size) + rec[cut..], size) == []
      && Readings(RecordsOf(Leftover(first, size) + rec[cut..], size), query) ==
           [NearOf(TestBit(SW_FRONT_PROXIMITY, [query(0).value]))]
  {
    var size: RecordSize := |rec|;
    var second := rec[..cut] + rec[cut..];
    assert second == rec;
    assert rec[..size] == rec && rec[size..] == [];
    assert RecordsOf(rec, size) == [rec];
    RecordStep([], rec, query, 0);
  }

  // ---------------------------------------------------------------------------
  // Worked examples of the capability parse

  /** A single word printed by the kernel parses back to itself. */
  lemma SingleWordText(w: Word)
    ensures BitmaskOf(Numeral(w, 16) + "\n", SIZEOF_POINTER) == [w]
  {
    assert HexTokens([w]) == [Numeral(w, 16)];
    assert PrintedBitmap([w]) == Numeral(w, 16);
    ParseOfPrintedBitmap([w], SIZEOF_POINTER);
  }

  /** A power of two has exactly one set bit. */
  lemma {:induction false} PopCountPow2(k: nat)
    ensures PopCount(Pow2(k)) == 1
  {
    if k > 0 {
      assert Pow2(k) % 2 == 0 && Pow2(k) / 2 == Pow2(k - 1);
      PopCountPow2(k - 1);
    }
  }

  lemma Pow2Values()
    ensures Pow2(10) == 0x400 && Pow2(11) == 0x800
  {
    assert Pow2(2) == 4;
    assert Pow2(4) == 16;
    assert Pow2(6) == 64;
    assert Pow2(8) == 256;
    assert Pow2(10) == 0x400;
  }

  lemma FrontProximityWord()
    ensures PopCount(0x800) == 1 && TestBit(SW_FRONT_PROXIMITY, [0x800]) == 1
  {
    Pow2Values();
    PopCountPow2(11);
    assert BitOf(0x800, 11) == 1;
  }

  lemma OtherSwitchWord()
    ensures PopCount(0x400) == 1 && TestBit(SW_FRONT_PROXIMITY, [0x400]) == 0
  {
    Pow2Values();
    PopCountPow2(10);
    assert BitOf(0x400, 11) == 0;
  }

  /** "800\n" sets only bit 11 (SW_FRONT_PROXIMITY): discovered. */
  lemma DiscoversFrontProximity()
    ensures Discovers(Contents("800\n"))
  {
    assert Numeral(0x800, 16) == "800";
    assert "800\n" == Numeral(0x800, 16) + "\n";
    SingleWordText(0x800);
    FrontProximityWord();
    var words := BitmaskOf("800\n", SIZEOF_POINTER);
    assert words == [0x800];
    assert TotalBits(words) == 1;
  }

  /** "400\n" sets only bit 10: rejected. */
  lemma RejectsOtherSwitch()
    ensures !Discovers(Contents("400\n"))
  {
    assert Numeral(0x400, 16) == "400";
    assert "400\n" == Numeral(0x400, 16) + "\n";
    SingleWordText(0x400);
    OtherSwitchWord();
    var words := BitmaskOf("400\n", SIZEOF_POINTER);
    assert words == [0x400];
    assert TotalBits(words) == 1;
  }

  lemma TwoWordBits()
    ensures TotalBits([0, 0x80]) == 1 && TestBit(BITS_PER_LONG + 7, [0, 0x80]) == 1
  {
    assert Pow2(7) == 0x80 by {
      assert Pow2(4) == 16;
    }
    PopCountPow2(7);
    assert [0, 0x80][..1] == [0];
    assert BitOf(0x80, 7) == 1;
  }

  /** "80 0\n" read into a two-word array: the last token is word 0, so
      bit 64 + 7 is the one set bit. */
  lemma TwoWordExample()
    ensures BitmaskOf("80 0\n", SIZEOF_POINTER) == [0, 0x80]
    ensures TotalBits([0, 0x80]) == 1 && TestBit(BITS_PER_LONG + 7, [0, 0x80]) == 1
  {
    assert Numeral(0x80, 16) == "80" && Numeral(0, 16) == "0";
    assert HexTokens([0, 0x80]) == ["80", "0"];
    JoinCons("80", ["0"]);
    assert PrintedBitmap([0, 0x80]) + "\n" == "80 0\n";
    ParseOfPrintedBitmap([0, 0x80], SIZEOF_POINTER);
    TwoWordBits();
  }

  /** The driver record (src/drv-input-proximity.c:259-266). */
  const Driver: SensorDriver :=
    SensorDriver("Input proximity", Proximity, Some((d: UdevDevice) => Discovers(d.switchCaps)), true, true, true)

  /** driver_discover on this driver is the switch-capability check. */
  lemma DiscoverIsSwitchCheck(device: UdevDevice)
    ensures DriverDiscover(Some(Driver), Some(device)) == Discovers(device.switchCaps)
  {
  }
}
