/** The minimum-price table of the railway planner (Ex2/RailWayPlanner.c):
    cell (i, j) of the table holds the cheapest price of a chain of rails of
    total length i - 1 whose last rail ends at the j-th symbol, or INT_MAX
    when no such chain has a price below INT_MAX. */
module RailwayPrices {
  import opened RailwayInput

  /** Rails as checkRoadInput hands them out. */
  predicate ValidRails(rails: seq<Road>, symbols: seq<char>)
  {
    forall i :: 0 <= i < |rails| ==> ValidRoad(rails[i], symbols)
  }

  // ---------------------------------------------------------------------
  // The recurrence

  /** The value helper computes for a cell: 0 for length 0, otherwise the
      best way to finish at `sym` with one more rail. */
  function MinPriceTo(rails: seq<Road>, symbols: seq<char>, len: nat, sym: char): (p: int)
    requires ValidRails(rails, symbols)
    ensures 0 <= p <= INT_MAX
    decreases len, |rails| + 1
  {
    if len == 0 then 0 else BestVia(rails, symbols, len, sym, |rails|)
  }

  /** The running minimum of helper after the first `k` rails: a rail that
      ends at `sym`, is no longer than `len` and whose remaining cell is
      finite offers its price plus that cell. */
  function BestVia(rails: seq<Road>, symbols: seq<char>, len: nat, sym: char, k: nat): (p: int)
    requires ValidRails(rails, symbols) && k <= |rails|
    ensures 0 <= p <= INT_MAX
    decreases len, k
  {
    if k == 0 then INT_MAX
    else
      var m := BestVia(rails, symbols, len, sym, k - 1);
      var r := rails[k - 1];
      if r.endPart == sym && len - r.length >= 0 then
        var added := MinPriceTo(rails, symbols, len - r.length, symbols[r.startPartIndex]);
        if added != INT_MAX && r.price != INT_MAX && r.price + added < m then r.price + added else m
      else m
  }

  /** Rail `i` can finish a chain of length `len` at `sym`. */
  ghost predicate Usable(rails: seq<Road>, symbols: seq<char>, len: nat, sym: char, i: int)
    requires ValidRails(rails, symbols) && 0 <= i < |rails|
  {
    var r := rails[i];
    r.endPart == sym && r.length <= len && r.price != INT_MAX &&
    MinPriceTo(rails, symbols, len - r.length, symbols[r.startPartIndex]) != INT_MAX
  }

  /** The price of finishing with rail `i`. */
  ghost function Via(rails: seq<Road>, symbols: seq<char>, len: nat, i: int): int
    requires ValidRails(rails, symbols) && 0 <= i < |rails| && rails[i].length <= len
  {
    var r := rails[i];
    r.price + MinPriceTo(rails, symbols, len - r.length, symbols[r.startPartIndex])
  }

  /** The running minimum is at most every usable offer seen so far. */
  lemma {:induction false} BestViaBelow(rails: seq<Road>, symbols: seq<char>, len: nat, sym: char, k: nat, i: int)
    requires ValidRails(rails, symbols) && 0 <= i < k <= |rails|
    requires Usable(rails, symbols, len, sym, i)
    ensures BestVia(rails, symbols, len, sym, k) <= Via(rails, symbols, len, i)
  {
    if i < k - 1 {
      BestViaBelow(rails, symbols, len, sym, k - 1, i);
    }
  }

  /** A finite running minimum is the offer of one usable rail. */
  lemma {:induction false} BestViaAttained(rails: seq<Road>, symbols: seq<char>, len: nat, sym: char, k: nat) returns (i: int)
    requires ValidRails(rails, symbols) && k <= |rails|
    requires BestVia(rails, symbols, len, sym, k) < INT_MAX
    ensures 0 <= i < k && Usable(rails, symbols, len, sym, i)
    ensures BestVia(rails, symbols, len, sym, k) == Via(rails, symbols, len, i)
  {
    var m := BestVia(rails, symbols, len, sym, k - 1);
    if BestVia(rails, symbols, len, sym, k) == m {
      i := BestViaAttained(rails, symbols, len, sym, k - 1);
    } else {
      i := k - 1;
    }
  }

  // ---------------------------------------------------------------------
  // What the recurrence means: cheapest chains of rails

  /** Rail indices forming a chain: each rail starts where the previous one
      ends. */
  ghost predicate Connected(rails: seq<Road>, c: seq<int>)
  {
    (forall i :: 0 <= i < |c| ==> 0 <= c[i] < |rails|) &&
    forall i :: 0 <= i < |c| - 1 ==> rails[c[i]].endPart == rails[c[i + 1]].startPart
  }

  /** A chain whose last rail ends at `sym` (the empty chain ends anywhere). */
  ghost predicate RouteTo(rails: seq<Road>, c: seq<int>, sym: char)
  {
    Connected(rails, c) && (|c| > 0 ==> rails[c[|c| - 1]].endPart == sym)
  }

  ghost function RouteLength(rails: seq<Road>, symbols: seq<char>, c: seq<int>): nat
    requires ValidRails(rails, symbols) && Connected(rails, c)
  {
    if c == [] then 0 else RouteLength(rails, symbols, c[..|c| - 1]) + rails[c[|c| - 1]].length
  }

  ghost function RoutePrice(rails: seq<Road>, symbols: seq<char>, c: seq<int>): nat
    requires ValidRails(rails, symbols) && Connected(rails, c)
  {
    if c == [] then 0 else RoutePrice(rails, symbols, c[..|c| - 1]) + rails[c[|c| - 1]].price
  }

  lemma ConnectedPrefix(rails: seq<Road>, c: seq<int>)
    requires Connected(rails, c) && c != []
    ensures Connected(rails, c[..|c| - 1])
    ensures |c| > 1 ==> RouteTo(rails, c[..|c| - 1], rails[c[|c| - 1]].startPart)
  {
  }

  /** No chain of total length `len` ending at `sym` is cheaper than the
      cell: the recurrence is a lower bound. */
  lemma {:induction false} MinPriceOptimal(rails: seq<Road>, symbols: seq<char>, c: seq<int>, sym: char)
    requires ValidRails(rails, symbols) && RouteTo(rails, c, sym)
    ensures MinPriceTo(rails, symbols, RouteLength(rails, symbols, c), sym) <= RoutePrice(rails, symbols, c)
    decreases |c|
  {
    if c != [] {
      var last := c[|c| - 1];
      var r := rails[last];
      var c' := c[..|c| - 1];
      var len := RouteLength(rails, symbols, c);
      ConnectedPrefix(rails, c);
      assert symbols[r.startPartIndex] == r.startPart;
      MinPriceOptimal(rails, symbols, c', r.startPart);
      var added := MinPriceTo(rails, symbols, len - r.length, r.startPart);
      if added != INT_MAX && r.price != INT_MAX {
        BestViaBelow(rails, symbols, len, sym, |rails|, last);
      }
    }
  }

  /** A finite cell is the price of a chain of that length ending at
      `sym`: the recurrence is attained. */
  lemma {:induction false} MinPriceAttained(rails: seq<Road>, symbols: seq<char>, len: nat, sym: char) returns (c: seq<int>)
    requires ValidRails(rails, symbols)
    requires MinPriceTo(rails, symbols, len, sym) < INT_MAX
    ensures RouteTo(rails, c, sym)
    ensures RouteLength(rails, symbols, c) == len
    ensures RoutePrice(rails, symbols, c) == MinPriceTo(rails, symbols, len, sym)
    decreases len
  {
    if len == 0 {
      c := [];
    } else {
      var i := BestViaAttained(rails, symbols, len, sym, |rails|);
      var r := rails[i];
      assert symbols[r.startPartIndex] == r.startPart;
      var c' := MinPriceAttained(rails, symbols, len - r.length, r.startPart);
      c := c' + [i];
      assert c[..|c| - 1] == c';
    }
  }

  /** The cheapest cell of the last row, over the first `k` symbols, capped
      at INT_MAX. */
  ghost function CheapestEnd(rails: seq<Road>, symbols: seq<char>, len: nat, k: nat): (p: int)
    requires ValidRails(rails, symbols) && k <= |symbols|
    ensures p <= INT_MAX
    ensures forall c :: 0 <= c < k ==> p <= MinPriceTo(rails, symbols, len, symbols[c])
    ensures p == INT_MAX || exists c :: 0 <= c < k && p == MinPriceTo(rails, symbols, len, symbols[c])
  {
    if k == 0 then INT_MAX
    else
      var m := CheapestEnd(rails, symbols, len, k - 1);
      var v := MinPriceTo(rails, symbols, len, symbols[k - 1]);
      if v < m then v else m
  }

  /** The plan price is no more than the price of any chain of the asked
      length. */
  lemma CheapestEndOptimal(rails: seq<Road>, symbols: seq<char>, c: seq<int>)
    requires ValidRails(rails, symbols) && Connected(rails, c) && |symbols| > 0
    ensures CheapestEnd(rails, symbols, RouteLength(rails, symbols, c), |symbols|) <= RoutePrice(rails, symbols, c)
  {
    var sym := if c == [] then symbols[0] else rails[c[|c| - 1]].endPart;
    MinPriceOptimal(rails, symbols, c, sym);
    var col := FirstIndex(sym, symbols);
    assert symbols[col] == sym;
  }

  /** A plan price below INT_MAX is the price of a chain of the asked
      length. */
  lemma CheapestEndAttained(rails: seq<Road>, symbols: seq<char>, len: nat) returns (c: seq<int>)
    requires ValidRails(rails, symbols)
    requires CheapestEnd(rails, symbols, len, |symbols|) < INT_MAX
    ensures Connected(rails, c) && RouteLength(rails, symbols, c) == len
    ensures RoutePrice(rails, symbols, c) == CheapestEnd(rails, symbols, len, |symbols|)
  {
    var col :| 0 <= col < |symbols| && CheapestEnd(rails, symbols, len, |symbols|) == MinPriceTo(rails, symbols, len, symbols[col]);
    c := MinPriceAttained(rails, symbols, len, symbols[col]);
  }

  // ---------------------------------------------------------------------
  // The table

  /** Row `i` (for lengths i - 1), columns 1.. of `table` hold the
      recurrence. */
  ghost predicate RowFilled(table: array2<int>, rails: seq<Road>, symbols: seq<char>, i: int)
    requires ValidRails(rails, symbols)
    requires table.Length1 == |symbols| + 1 && 1 <= i < table.Length0
    reads table
  {
    forall j :: 1 <= j < table.Length1 ==> table[i, j] == MinPriceTo(rails, symbols, i - 1, symbols[j - 1])
  }

  /** helper: one cell from the rows above it. */
  method Helper(symbol: char, length: int, rails: seq<Road>, rowLen: int, results: array2<int>, ghost symbols: seq<char>)
    returns (min: int)
    requires ValidRails(rails, symbols)
    requires rowLen == |symbols| + 1 == results.Length1
    requires 0 <= length < results.Length0
    requires forall i :: 1 <= i <= length ==> RowFilled(results, rails, symbols, i)
    ensures min == MinPriceTo(rails, symbols, length, symbol)
  {
    min := INT_MAX;
    if length == 0 {
      return 0;
    }
    var i := 0;
    while i < |rails|
      invariant 0 <= i <= |rails|
      invariant min == BestVia(rails, symbols, length, symbol, i)
    {
      var temp := rails[i];
      if temp.endPart == symbol && length - temp.length >= 0 {
        assert RowFilled(results, rails, symbols, length - temp.length + 1);
        var addedPrice := results[length - temp.length + 1, temp.startPartIndex + 1];
        if addedPrice != INT_MAX && temp.price != INT_MAX {
          var val := temp.price + addedPrice;
          if val < min {
            min := val;
          }
        }
      }
      i := i + 1;
    }
  }

  /** findMinInTable: the minimum of entries 1 .. length - 1 of a row,
      starting from INT_MAX (entry 0 is the row's header). */
  method FindMinInTable(arr: array2<int>, row: int, length: int) returns (min: int)
    requires 0 <= row < arr.Length0 && length <= arr.Length1
    ensures min <= INT_MAX
    ensures forall i :: 1 <= i < length ==> min <= arr[row, i]
    ensures min == INT_MAX || exists i :: 1 <= i < length && min == arr[row, i]
  {
    min := INT_MAX;
    var i := 1;
    while i < length
      invariant 1 <= i <= if length < 1 then 1 else length
      invariant min <= INT_MAX
      invariant forall k :: 1 <= k < i ==> min <= arr[row, k]
      invariant min == INT_MAX || exists k :: 1 <= k < i && min == arr[row, k]
    {
      if arr[row, i] < min {
        min := arr[row, i];
      }
      i := i + 1;
    }
  }

  /** The header row holds the symbols and the header column the lengths. */
  ghost predicate Headers(table: array2<int>, symbols: seq<char>)
    requires 0 < table.Length0 && table.Length1 == |symbols| + 1
    reads table
  {
    (forall j :: 1 <= j < table.Length1 ==> table[0, j] == symbols[j - 1] as int) &&
    (forall i :: 1 <= i < table.Length0 ==> table[i, 0] == i - 1)
  }

  /** The inner loop of findMinPrice: fills row `i` from the rows above. */
  method FillRow(table: array2<int>, i: int, rails: seq<Road>, symbols: seq<char>)
    requires ValidRails(rails, symbols)
    requires table.Length1 == |symbols| + 1 && 1 <= i < table.Length0
    requires Headers(table, symbols)
    requires forall k :: 1 <= k < i ==> RowFilled(table, rails, symbols, k)
    modifies table
    ensures Headers(table, symbols)
    ensures forall k :: 1 <= k <= i ==> RowFilled(table, rails, symbols, k)
  {
    var rowLen := table.Length1;
    forall k, c | 1 <= k < i && 1 <= c < rowLen
      ensures table[k, c] == MinPriceTo(rails, symbols, k - 1, symbols[c - 1])
    {
      assert RowFilled(table, rails, symbols, k);
    }
    var j := 1;
    while j < rowLen
      invariant 1 <= j <= rowLen
      invariant Headers(table, symbols)
      invariant forall k, c :: 1 <= k < i && 1 <= c < rowLen ==> table[k, c] == MinPriceTo(rails, symbols, k - 1, symbols[c - 1])
      invariant forall c :: 1 <= c < j ==> table[i, c] == MinPriceTo(rails, symbols, i - 1, symbols[c - 1])
    {
      var v := Helper(table[0, j] as char, table[i, 0], rails, rowLen, table, symbols);
      table[i, j] := v;
      j := j + 1;
    }
  }

  /** findMinPrice: builds the table row by row and reads the cheapest cell
      of the row for the asked length; -1 when none is below INT_MAX. */
  method FindMinPrice(rails: seq<Road>, length: int, symbols: seq<char>) returns (r: int)
    requires ValidRails(rails, symbols)
    requires length >= 0 && |symbols| >= 1
    ensures r == if CheapestEnd(rails, symbols, length, |symbols|) == INT_MAX then INVALID_VALUE
                 else CheapestEnd(rails, symbols, length, |symbols|)
  {
    var rowLen := |symbols| + 1;
    var colLen := length + 2;
    var resultsTable := new int[colLen, rowLen]((_, _) => 0);
    var i := 1;
    while i < rowLen
      invariant 1 <= i <= rowLen
      invariant forall j :: 1 <= j < i ==> resultsTable[0, j] == symbols[j - 1] as int
    {
      resultsTable[0, i] := symbols[i - 1] as int;
      i := i + 1;
    }
    var j := 1;
    while j < colLen
      invariant 1 <= j <= colLen
      invariant forall k :: 1 <= k < rowLen ==> resultsTable[0, k] == symbols[k - 1] as int
      invariant forall k :: 1 <= k < j ==> resultsTable[k, 0] == k - 1
    {
      resultsTable[j, 0] := j - 1;
      j := j + 1;
    }
    i := 1;
    while i < colLen
      invariant 1 <= i <= colLen
      invariant Headers(resultsTable, symbols)
      invariant forall k :: 1 <= k < i ==> RowFilled(resultsTable, rails, symbols, k)
    {
      FillRow(resultsTable, i, rails, symbols);
      i := i + 1;
    }
    var minPrice := FindMinInTable(resultsTable, length + 1, rowLen);
    assert RowFilled(resultsTable, rails, symbols, length + 1);
    forall c | 0 <= c < |symbols|
      ensures minPrice <= MinPriceTo(rails, symbols, length, symbols[c])
    {
      assert resultsTable[length + 1, c + 1] == MinPriceTo(rails, symbols, length, symbols[c]);
    }
    if minPrice != INT_MAX {
      var k :| 1 <= k < rowLen && minPrice == resultsTable[length + 1, k];
      assert minPrice == MinPriceTo(rails, symbols, length, symbols[k - 1]);
    }
    MinIsCheapestEnd(rails, symbols, length, minPrice);
    if minPrice == INT_MAX || minPrice < 0 {
      return INVALID_VALUE;
    }
    return minPrice;
  }

  /** Any value with the defining properties of the minimum over the symbols
      is CheapestEnd. */
  lemma MinIsCheapestEnd(rails: seq<Road>, symbols: seq<char>, len: nat, m: int)
    requires ValidRails(rails, symbols)
    requires m <= INT_MAX
    requires forall c :: 0 <= c < |symbols| ==> m <= MinPriceTo(rails, symbols, len, symbols[c])
    requires m == INT_MAX || exists c :: 0 <= c < |symbols| && m == MinPriceTo(rails, symbols, len, symbols[c])
    ensures m == CheapestEnd(rails, symbols, len, |symbols|)
  {
  }
}
