/** The price-history session: a client sends 9-byte messages, each an opcode
    byte followed by two big-endian two's-complement 32-bit integers. `I`
    records a price at a timestamp, `Q` asks for the mean price over an
    inclusive timestamp range and is answered with one 32-bit integer; any
    other opcode ends the session. */
module MeansToAnEnd {
  import opened Numeric

  /** `i32::from_be_bytes`: four bytes, most significant first, read as two's
      complement. */
  function FromBeBytes(b: seq<byte>): int32
    requires |b| == 4
  {
    var u := Unsigned(b);
    if u < 0x8000_0000 then u else u - 0x1_0000_0000
  }

  /** Four bytes, most significant first, as an unsigned number. */
  function Unsigned(b: seq<byte>): (u: int)
    requires |b| == 4
    ensures 0 <= u < 0x1_0000_0000
  {
    b[0] as int * 0x100_0000 + b[1] as int * 0x1_0000 + b[2] as int * 0x100 + b[3] as int
  }

  /** `i32::to_be_bytes`, as `write_i32` sends it. */
  function ToBeBytes(x: int32): (b: seq<byte>)
    ensures |b| == 4
  {
    var u := if x < 0 then x + 0x1_0000_0000 else x;
    [u / 0x100_0000, (u / 0x1_0000) % 0x100, (u / 0x100) % 0x100, u % 0x100]
  }

  /** The byte order on the wire: most significant byte first, negative
      numbers in two's complement. */
  lemma ByteOrderExamples()
    ensures ToBeBytes(101) == [0, 0, 0, 101]
    ensures ToBeBytes(0x0102_0304) == [1, 2, 3, 4]
    ensures ToBeBytes(-1) == [0xFF, 0xFF, 0xFF, 0xFF]
    ensures ToBeBytes(-0x8000_0000) == [0x80, 0, 0, 0]
    ensures FromBeBytes([0, 0, 0x30, 0x39]) == 12345
  {
  }

  /** Reading back what was written gives the number. */
  lemma FromToBeBytes(x: int32)
    ensures FromBeBytes(ToBeBytes(x)) == x
  {
    var u := if x < 0 then x + 0x1_0000_0000 else x;
    var b := ToBeBytes(x);
    assert Unsigned(b) == u;
  }

  /** Writing what was read gives the bytes back: every four bytes are some
      number's encoding. */
  lemma ToFromBeBytes(b: seq<byte>)
    requires |b| == 4
    ensures ToBeBytes(FromBeBytes(b)) == b
  {
    var u := Unsigned(b);
    var x := FromBeBytes(b);
    assert (if x < 0 then x as int + 0x1_0000_0000 else x as int) == u;
    assert u / 0x100_0000 == b[0];
    assert u / 0x1_0000 == b[0] as int * 0x100 + b[1] as int;
    assert u / 0x100 == b[0] as int * 0x1_0000 + b[1] as int * 0x100 + b[2] as int;
  }

  const OpInsert: byte := 0x49  // 'I'
  const OpQuery: byte := 0x51   // 'Q'

  /** A decoded message. */
  datatype Request =
    | Insert(timestamp: int32, price: int32)
    | Query(minTime: int32, maxTime: int32)
    | Unknown(opcode: byte)

  /** One 9-byte message: the opcode picks the kind, bytes 1 to 4 and 5 to 8
      are the two numbers. */
  function Decode(frame: seq<byte>): (r: Request)
    requires |frame| == 9
    ensures r.Insert? <==> frame[0] == OpInsert
    ensures r.Query? <==> frame[0] == OpQuery
    ensures r.Unknown? ==> r.opcode == frame[0]
  {
    var first := FromBeBytes(frame[1..5]);
    var second := FromBeBytes(frame[5..9]);
    if frame[0] == OpInsert then Insert(first, second)
    else if frame[0] == OpQuery then Query(first, second)
    else Unknown(frame[0])
  }

  /** The message a client sends for a request; an unknown opcode is sent
      with zero bytes after it. */
  function Encode(r: Request): (frame: seq<byte>)
    ensures |frame| == 9
  {
    match r
    case Insert(t, p) => [OpInsert] + ToBeBytes(t) + ToBeBytes(p)
    case Query(lo, hi) => [OpQuery] + ToBeBytes(lo) + ToBeBytes(hi)
    case Unknown(op) => [op, 0, 0, 0, 0, 0, 0, 0, 0]
  }

  /** Every request survives encoding and decoding, as long as an unknown
      opcode really is unknown. */
  lemma DecodeEncode(r: Request)
    requires r.Unknown? ==> r.opcode != OpInsert && r.opcode != OpQuery
    ensures Decode(Encode(r)) == r
  {
    var frame := Encode(r);
    match r
    case Insert(t, p) =>
      assert frame[1..5] == ToBeBytes(t) && frame[5..9] == ToBeBytes(p);
      FromToBeBytes(t);
      FromToBeBytes(p);
    case Query(lo, hi) =>
      assert frame[1..5] == ToBeBytes(lo) && frame[5..9] == ToBeBytes(hi);
      FromToBeBytes(lo);
      FromToBeBytes(hi);
    case Unknown(op) =>
  }

  /** Every `I` or `Q` message is the encoding of what it decodes to. */
  lemma EncodeDecode(frame: seq<byte>)
    requires |frame| == 9 && (frame[0] == OpInsert || frame[0] == OpQuery)
    ensures Encode(Decode(frame)) == frame
  {
    ToFromBeBytes(frame[1..5]);
    ToFromBeBytes(frame[5..9]);
    assert frame == [frame[0]] + frame[1..5] + frame[5..9];
  }

  /** The timestamps of `prices` inside the inclusive range. */
  ghost function Selected(prices: map<int32, int32>, lo: int, hi: int): (keys: set<int32>)
    ensures keys <= prices.Keys
  {
    set k | k in prices && lo <= k <= hi
  }

  /** The sum of the prices at `keys`. */
  ghost function Sum(prices: map<int32, int32>, keys: set<int32>): int
    requires keys <= prices.Keys
    decreases keys
  {
    if keys == {} then 0
    else
      var k :| k in keys;
      prices[k] + Sum(prices, keys - {k})
  }

  /** The sum does not depend on the order the keys are visited in: any key
      can be taken out first. */
  lemma {:induction false} SumRemove(prices: map<int32, int32>, keys: set<int32>, k: int32)
    requires keys <= prices.Keys && k in keys
    ensures Sum(prices, keys) == prices[k] + Sum(prices, keys - {k})
    decreases keys
  {
    var j :| j in keys && Sum(prices, keys) == prices[j] + Sum(prices, keys - {j});
    if j != k {
      SumRemove(prices, keys - {j}, k);
      SumRemove(prices, keys - {k}, j);
      assert keys - {j} - {k} == keys - {k} - {j};
    }
  }

  /** Prices within `[low, high]` sum to within `|keys|` times those bounds. */
  lemma {:induction false} SumBounds(prices: map<int32, int32>, keys: set<int32>, low: int, high: int)
    requires keys <= prices.Keys
    requires forall k :: k in keys ==> low <= prices[k] <= high
    ensures |keys| * low <= Sum(prices, keys) <= |keys| * high
    decreases keys
  {
    if keys != {} {
      var k :| k in keys && Sum(prices, keys) == prices[k] + Sum(prices, keys - {k});
      SumBounds(prices, keys - {k}, low, high);
      var n := |keys - {k}|;
      assert |keys| == n + 1;
      MulSucc(n, low);
      MulSucc(n, high);
    }
  }

  lemma MulSucc(n: int, x: int)
    ensures (n + 1) * x == n * x + x
  {
  }

  /** A set of numbers from `[lo, hi)` has at most `hi - lo` elements. */
  lemma {:induction false} RangeCardinality(s: set<int>, lo: int, hi: int)
    requires lo <= hi
    requires forall x :: x in s ==> lo <= x < hi
    ensures |s| <= hi - lo
    decreases hi - lo
  {
    if lo < hi {
      var t := s - {hi - 1};
      RangeCardinality(t, lo, hi - 1);
      assert s <= t + {hi - 1};
    } else {
      assert s == {};
    }
  }

  /** There are at most 2^32 distinct timestamps. */
  lemma TimestampCount(keys: set<int32>)
    ensures |keys| <= 0x1_0000_0000
  {
    var s: set<int> := set k | k in keys :: k as int;
    assert s == keys;
    RangeCardinality(s, Int32Min, Int32Max + 1);
  }

  /** Rust's `/` on integers: the quotient truncated toward zero. */
  function DivTrunc(a: int, n: int): (q: int)
    requires n > 0
    ensures a >= 0 ==> 0 <= q * n <= a < q * n + n
    ensures a < 0 ==> q * n - n < a <= q * n <= 0
  {
    if a >= 0 then
      DivBounds(a, n);
      a / n
    else
      DivBounds(-a, n);
      -((-a) / n)
  }

  /** Euclidean division of a non-negative number. */
  lemma DivBounds(m: int, n: int)
    requires m >= 0 && n > 0
    ensures 0 <= (m / n) * n <= m < (m / n) * n + n
  {
    var d := m / n;
    assert m == d * n + m % n;
    MulMonotone(0, d, n);
  }

  /** A sum of `n` numbers from `[low, high]`, divided by `n`, stays in
      `[low, high]`. */
  lemma DivTruncWithin(a: int, n: int, low: int, high: int)
    requires n > 0
    requires n * low <= a <= n * high
    ensures low <= DivTrunc(a, n) <= high
  {
    var q := DivTrunc(a, n);
    if q < low {
      MulMonotone(q + 1, low, n);
      assert false;
    }
    if q > high {
      MulMonotone(high + 1, q, n);
      assert false;
    }
  }

  lemma MulMonotone(x: int, y: int, n: int)
    requires x <= y && n >= 0
    ensures x * n <= y * n
  {
    assert y * n - x * n == (y - x) * n;
  }

  /** The answer to `Q lo hi`: 0 for an inverted range or a range without
      prices, otherwise the sum of the selected prices divided by their count,
      truncated toward zero. It always fits an `i32`. */
  ghost function Mean(prices: map<int32, int32>, lo: int32, hi: int32): int32
  {
    if lo > hi then 0
    else
      var keys := Selected(prices, lo, hi);
      if |keys| == 0 then 0
      else
        SumBounds(prices, keys, Int32Min, Int32Max);
        DivTruncWithin(Sum(prices, keys), |keys|, Int32Min, Int32Max);
        DivTrunc(Sum(prices, keys), |keys|)
  }

  /** The mean lies between any bounds on the selected prices, in particular
      between the least and the greatest of them. */
  lemma MeanWithin(prices: map<int32, int32>, lo: int32, hi: int32, low: int, high: int)
    requires lo <= hi && |Selected(prices, lo, hi)| > 0
    requires forall k :: k in Selected(prices, lo, hi) ==> low <= prices[k] <= high
    ensures low <= Mean(prices, lo, hi) <= high
  {
    var keys := Selected(prices, lo, hi);
    SumBounds(prices, keys, low, high);
    DivTruncWithin(Sum(prices, keys), |keys|, low, high);
  }

  /** An inverted range and a range without prices are both answered with 0. */
  lemma MeanOfNothing(prices: map<int32, int32>, lo: int32, hi: int32)
    requires lo > hi || forall k :: k in prices ==> !(lo <= k <= hi)
    ensures Mean(prices, lo, hi) == 0
  {
    if lo <= hi {
      assert Selected(prices, lo, hi) == {};
    }
  }

  /** A single price in the range is its own mean. */
  lemma MeanOfOne(prices: map<int32, int32>, lo: int32, hi: int32, t: int32)
    requires lo <= t <= hi && t in prices
    requires forall k :: k in prices && lo <= k <= hi ==> k == t
    ensures Mean(prices, lo, hi) == prices[t]
  {
    var keys := Selected(prices, lo, hi);
    assert keys == {t};
    SumRemove(prices, keys, t);
    assert keys - {t} == {};
  }

  /** One more price taken from the ones still to visit and added to the
      running sum: the `i64` sum and count of the query loop cannot overflow. */
  lemma AddToSum(prices: map<int32, int32>, selected: set<int32>, rest: set<int32>, k: int32)
    requires selected <= prices.Keys && rest <= selected && k in rest
    ensures var seen, next := selected - rest, selected - (rest - {k});
            && Sum(prices, next) == Sum(prices, seen) + prices[k]
            && |next| == |seen| + 1 <= 0x1_0000_0000
            && -0x8000_0000_0000_0000 <= Sum(prices, next) < 0x8000_0000_0000_0000
  {
    var seen, next := selected - rest, selected - (rest - {k});
    assert next == seen + {k};
    SumRemove(prices, next, k);
    assert next - {k} == seen;
    TimestampCount(next);
    SumBounds(prices, next, Int32Min, Int32Max);
  }

  /** The sum and the count of the selected prices give the mean, the way
      the query branch divides them. */
  lemma MeanFromSum(prices: map<int32, int32>, lo: int32, hi: int32, total: int, counter: int)
    requires lo <= hi
    requires total == Sum(prices, Selected(prices, lo, hi)) && counter == |Selected(prices, lo, hi)|
    ensures var mean := if counter == 0 then total else DivTrunc(total, counter);
            Int32Min <= mean <= Int32Max && mean == Mean(prices, lo, hi)
  {
    if counter > 0 {
      SumBounds(prices, Selected(prices, lo, hi), Int32Min, Int32Max);
      DivTruncWithin(total, counter, Int32Min, Int32Max);
    }
  }

  /** The `for_each` of the query branch: add up the selected prices in an
      `i64` and count them. */
  method SumPrices(db: map<int32, int32>, selected: set<int32>) returns (total: int64, counter: int64)
    requires selected <= db.Keys
    ensures total == Sum(db, selected) && counter == |selected|
  {
    total, counter := 0, 0;
    var rest := selected;
    while rest != {}
      invariant rest <= selected
      invariant total == Sum(db, selected - rest)
      invariant counter == |selected - rest|
      decreases |rest|
    {
      var k :| k in rest;
      AddToSum(db, selected, rest, k);
      total := total + db[k] as int64;
      counter := counter + 1;
      rest := rest - {k};
    }
    assert selected - rest == selected;
  }

  /** The query branch of `handler`: an inverted range is answered with 0;
      otherwise the selected prices are summed and counted, and the sum is
      divided by the count with truncation and converted to `i32`. Neither the
      sum nor the conversion can overflow. */
  method RangeMean(db: map<int32, int32>, left: int32, right: int32) returns (mean: int32)
    ensures mean == Mean(db, left, right)
  {
    if left > right {
      return 0;
    }
    var total, counter := SumPrices(db, set k | k in db && left <= k <= right);
    MeanFromSum(db, left, right, total, counter);
    mean := (if counter == 0 then total else DivTrunc(total, counter)) as int32;
  }

  /** How a session ends: `read_exact` fails because fewer than 9 bytes were
      left (the handler returns the error at once), or an unknown opcode
      breaks the loop (the handler flushes, shuts the stream down and returns
      success). */
  datatype Ending = ReadError | UnknownOpcode(opcode: byte)

  /** Everything a session writes, how it ends, and the prices it holds then. */
  datatype Outcome = Outcome(output: seq<byte>, ending: Ending, prices: map<int32, int32>)

  /** The session fed `input` with `prices` already recorded. */
  ghost function Session(prices: map<int32, int32>, input: seq<byte>): Outcome
    decreases |input|
  {
    if |input| < 9 then Outcome([], ReadError, prices)
    else
      match Decode(input[..9])
      case Insert(t, p) => Session(prices[t := p], input[9..])
      case Query(lo, hi) =>
        var o := Session(prices, input[9..]);
        o.(output := ToBeBytes(Mean(prices, lo, hi)) + o.output)
      case Unknown(op) => Outcome([], UnknownOpcode(op), prices)
  }

  /** `handler`: read 9 bytes at a time and act on the opcode, keeping the
      prices in a map updated in place. */
  method Handler(input: seq<byte>) returns (output: seq<byte>, ending: Ending)
    ensures output == Session(map[], input).output
    ensures ending == Session(map[], input).ending
  {
    var db: map<int32, int32> := map[];
    output := [];
    var rest := input;
    while true
      invariant Session(map[], input).output == output + Session(db, rest).output
      invariant Session(map[], input).ending == Session(db, rest).ending
      decreases |rest|
    {
      if |rest| < 9 {
        return output, ReadError;
      }
      var action := rest[..9];
      rest := rest[9..];
      if action[0] == OpInsert {
        var timestamp := FromBeBytes(action[1..5]);
        var price := FromBeBytes(action[5..9]);
        db := db[timestamp := price];
      } else if action[0] == OpQuery {
        var left := FromBeBytes(action[1..5]);
        var right := FromBeBytes(action[5..9]);
        var mean := RangeMean(db, left, right);
        output := output + ToBeBytes(mean);
      } else {
        return output, UnknownOpcode(action[0]);
      }
    }
  }

  /** `I t p` records `p` at `t`, replacing any earlier price there, and
      writes nothing. */
  lemma InsertStep(prices: map<int32, int32>, t: int32, p: int32, rest: seq<byte>)
    ensures Session(prices, Encode(Insert(t, p)) + rest) == Session(prices[t := p], rest)
  {
    var input := Encode(Insert(t, p)) + rest;
    assert input[..9] == Encode(Insert(t, p)) && input[9..] == rest;
    DecodeEncode(Insert(t, p));
  }

  /** `Q lo hi` writes the mean and leaves the prices alone. */
  lemma QueryStep(prices: map<int32, int32>, lo: int32, hi: int32, rest: seq<byte>)
    ensures var o := Session(prices, Encode(Query(lo, hi)) + rest);
            && o.output == ToBeBytes(Mean(prices, lo, hi)) + Session(prices, rest).output
            && o.ending == Session(prices, rest).ending
            && o.prices == Session(prices, rest).prices
  {
    var input := Encode(Query(lo, hi)) + rest;
    assert input[..9] == Encode(Query(lo, hi)) && input[9..] == rest;
    DecodeEncode(Query(lo, hi));
  }

  /** Any other opcode ends the session at once, whatever follows. */
  lemma UnknownStops(prices: map<int32, int32>, frame: seq<byte>, rest: seq<byte>)
    requires |frame| == 9 && frame[0] != OpInsert && frame[0] != OpQuery
    ensures Session(prices, frame + rest) == Outcome([], UnknownOpcode(frame[0]), prices)
  {
    assert (frame + rest)[..9] == frame;
  }

  /** The session test: `I 12345 101` then `Q 12288 16384` is answered with
      101. */
  lemma ExampleSession()
    ensures Session(map[], Encode(Insert(12345, 101)) + Encode(Query(12288, 16384))).output == ToBeBytes(101)
  {
    var prices: map<int32, int32> := map[12345 := 101];
    InsertStep(map[], 12345, 101, Encode(Query(12288, 16384)));
    assert map[][12345 := 101] == prices;
    assert Encode(Query(12288, 16384)) == Encode(Query(12288, 16384)) + [];
    QueryStep(prices, 12288, 16384, []);
    MeanOfOne(prices, 12288, 16384, 12345);
  }

  /** The inverted-range test: `Q 20000 16384` is answered with 0. */
  lemma InvertedRangeSession()
    ensures Session(map[], Encode(Insert(12345, 101)) + Encode(Query(20000, 16384))).output == ToBeBytes(0)
  {
    var prices: map<int32, int32> := map[12345 := 101];
    InsertStep(map[], 12345, 101, Encode(Query(20000, 16384)));
    assert map[][12345 := 101] == prices;
    assert Encode(Query(20000, 16384)) == Encode(Query(20000, 16384)) + [];
    QueryStep(prices, 20000, 16384, []);
    MeanOfNothing(prices, 20000, 16384);
  }
}
