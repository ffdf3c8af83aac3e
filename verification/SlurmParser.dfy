/** The parser of run-length task lists such as "2(x3),4" (tools/slurm_variables_parser.c). */
module SlurmParser {
  import opened Options

  const LONG_MAX: int := 0x7FFF_FFFF_FFFF_FFFF
  const INT_MAX: int := 0x7FFF_FFFF

  /** The character under the cursor; the terminating NUL at the end. */
  function At(s: string, i: nat): char {
    if i < |s| then s[i] else '\0'
  }

  ghost predicate CString(s: string) {
    '\0' !in s
  }

  // ---------------------------------------------------------------- strtol

  predicate IsSpace(c: char) {
    c == ' ' || 9 <= c as int <= 13
  }

  predicate IsDigit(c: char) {
    '0' <= c <= '9'
  }

  function DigitValue(c: char): int {
    c as int - '0' as int
  }

  function SkipSpaces(s: string, i: nat): (j: nat)
    requires i <= |s|
    ensures i <= j <= |s| && forall k :: i <= k < j ==> IsSpace(s[k])
    decreases |s| - i
  {
    if i < |s| && IsSpace(s[i]) then SkipSpaces(s, i + 1) else i
  }

  function SkipDigits(s: string, i: nat): (j: nat)
    requires i <= |s|
    ensures i <= j <= |s| && forall k :: i <= k < j ==> IsDigit(s[k])
    ensures j < |s| ==> !IsDigit(s[j])
    decreases |s| - i
  {
    if i < |s| && IsDigit(s[i]) then SkipDigits(s, i + 1) else i
  }

  function Horner(s: string, i: nat, j: nat): int
    requires i <= j <= |s|
    decreases j
  {
    if i == j then 0 else Horner(s, i, j - 1) * 10 + DigitValue(s[j-1])
  }

  function Clamp(v: int): int {
    if v > LONG_MAX then LONG_MAX else if v < -LONG_MAX - 1 then -LONG_MAX - 1 else v
  }

  /** Value and end position of strtol(s + i, ..., 10); no digits leave the end at i. */
  function Strtol(s: string, i: nat): (r: (int, nat))
    requires i <= |s|
    ensures i <= r.1 <= |s|
  {
    var start := SkipSpaces(s, i);
    var negative := At(s, start) == '-' && start < |s|;
    var first := if start < |s| && (s[start] == '-' || s[start] == '+') then start + 1 else start;
    var end := SkipDigits(s, first);
    if end == first then (0, i)
    else (Clamp(if negative then -Horner(s, first, end) else Horner(s, first, end)), end)
  }

  /** The conversion of a long to an int. */
  function ToInt(v: int): (r: int)
    ensures -INT_MAX - 1 <= r <= INT_MAX
  {
    var w := v % 0x1_0000_0000;
    if w > INT_MAX then w - 0x1_0000_0000 else w
  }

  // ---------------------------------------------------------------- the parser, on values

  /** read_integer: -1 on a malformed or negative number, and on zero unless allowed. */
  function ReadInteger(s: string, i: nat, allowZero: bool): (r: (int, nat))
    requires i <= |s|
    ensures i <= r.1 <= |s| && -INT_MAX - 1 <= r.0 <= INT_MAX
    ensures r.0 > 0 ==> r.1 > i
  {
    var (value, end) := Strtol(s, i);
    if value == 0 && !allowZero then (-1, end)
    else if value < 0 || end == i then (-1, end)
    else (ToInt(value), end)
  }

  /** read_slurm_ppn_repeat_count: 0 when there is no repeat, negative on an error. */
  function ReadRepeat(s: string, i: nat): (r: (int, nat))
    requires CString(s) && i <= |s|
    ensures i <= r.1 <= |s|
  {
    if At(s, i) != '(' then (0, i)
    else if At(s, i + 1) != 'x' then (-1, i + 1)
    else
      var (count, end) := ReadInteger(s, i + 2, false);
      if count == 0 then (-1, end)
      else if At(s, end) != ')' then (-1, end)
      else (count, end + 1)
  }

  function Repeat(v: int, n: nat): (r: seq<int>)
    ensures |r| == n
  {
    seq(n, _ => v)
  }

  /** The result of a parse: the entries; an error; or more entries than nodes, which trips the assertion at line 106.
      */
  datatype Outcome = Entries(list: seq<int>) | Malformed | TooMany

  function Finish(size: nat, list: seq<int>): Outcome {
    if |list| == size then Entries(list) else Malformed
  }

  /** read_slurm_tasks_ppn_parse from position i on, with the entries stored so far. */
  function ParseFrom(s: string, i: nat, size: nat, list: seq<int>): Outcome
    requires CString(s) && i <= |s|
    decreases |s| - i
  {
    if i == |s| then Finish(size, list)
    else
      var (count, end) := ReadInteger(s, i, false);
      if count <= 0 then Malformed
      else
        var (repeat, next) := ReadRepeat(s, end);
        if repeat < 0 then Malformed
        else
          var n := if repeat == 0 then 1 else repeat;
          if |list| + n > size then TooMany
          else
            var longer := list + Repeat(count, n);
            if next == |s| then Finish(size, longer)
            else if s[next] != ',' then Malformed
            else ParseFrom(s, next + 1, size, longer)
  }

  function Parse(s: string, size: nat): Outcome
    requires CString(s)
  {
    ParseFrom(s, 0, size, [])
  }

  /** Whatever string is accepted, there is exactly one entry per node, and every entry is a positive int. */
  lemma {:induction false} AcceptedIsComplete(s: string, i: nat, size: nat, list: seq<int>)
    requires CString(s) && i <= |s|
    requires forall k :: 0 <= k < |list| ==> 0 < list[k] <= INT_MAX
    ensures var r := ParseFrom(s, i, size, list);
      r.Entries? ==>
        && |r.list| == size
        && list <= r.list
        && forall k :: 0 <= k < size ==> 0 < r.list[k] <= INT_MAX
    decreases |s| - i
  {
    hide ReadInteger; hide ReadRepeat; hide CString;
    if i < |s| {
      var (count, end) := ReadInteger(s, i, false);
      if count > 0 {
        var (repeat, next) := ReadRepeat(s, end);
        var n := if repeat == 0 then 1 else repeat;
        if repeat >= 0 && |list| + n <= size && next < |s| && s[next] == ',' {
          AcceptedIsComplete(s, next + 1, size, list + Repeat(count, n));
        }
      }
    }
  }

  // ---------------------------------------------------------------- the accepted language

  function Pow10(n: nat): int {
    if n == 0 then 1 else 10 * Pow10(n - 1)
  }

  /** The value of a string of digits, each one weighted by its place. */
  function Value(w: string): int {
    if w == "" then 0 else DigitValue(w[0]) * Pow10(|w| - 1) + Value(w[1..])
  }

  /** s spells v from i to j: white space up to a, a sign or none up to b, then digits, as many as there are. */
  ghost predicate NumberAt(s: string, i: nat, a: nat, b: nat, j: nat, v: int) {
    && i <= a <= b < j <= |s|
    && (forall k :: i <= k < a ==> IsSpace(s[k]))
    && (b == a || (b == a + 1 && (s[a] == '-' || s[a] == '+')))
    && (forall k :: b <= k < j ==> IsDigit(s[k]))
    && (j < |s| ==> !IsDigit(s[j]))
    && v == if b > a && s[a] == '-' then -Value(s[b..j]) else Value(s[b..j])
  }

  ghost predicate IsNumber(s: string, i: nat, j: nat, v: int) {
    exists a: nat, b: nat :: NumberAt(s, i, a, b, j, v)
  }

  /** The entry that a written number yields: numbers of more than 31 bits are not refused but lose their upper bits. */
  predicate Yields(v: int, n: int) {
    0 < v <= LONG_MAX && n == v % 0x1_0000_0000 && 0 < n <= INT_MAX
  }

  /** s spells from i to j a number that yields n. */
  ghost predicate SpellsNumber(s: string, i: nat, j: nat, n: int) {
    exists v :: IsNumber(s, i, j, v) && Yields(v, n)
  }

  /** Exactly when an accepted entry is the number that was written. */
  lemma WrittenExactly(v: int, n: int)
    requires Yields(v, n)
    ensures n == v <==> v <= INT_MAX
  {
  }

  lemma {:induction false} ValueSnoc(w: string, c: char)
    ensures Value(w + [c]) == 10 * Value(w) + DigitValue(c)
  {
    if w == "" {
      assert ([c])[1..] == "";
    } else {
      assert (w + [c])[1..] == w[1..] + [c];
      ValueSnoc(w[1..], c);
      ScaleBy10(DigitValue(w[0]), Pow10(|w| - 1));
    }
  }

  lemma ScaleBy10(d: int, power: int)
    ensures d * (10 * power) == 10 * (d * power)
  {
  }

  lemma {:induction false} HornerIsValue(s: string, i: nat, j: nat)
    requires i <= j <= |s|
    ensures Horner(s, i, j) == Value(s[i..j])
    decreases j
  {
    if i < j {
      HornerIsValue(s, i, j - 1);
      ValueSnoc(s[i..j-1], s[j-1]);
      assert s[i..j] == s[i..j-1] + [s[j-1]];
    }
  }

  lemma {:induction false} SpacesEnd(s: string, i: nat, a: nat)
    requires i <= a < |s| && (forall k :: i <= k < a ==> IsSpace(s[k])) && !IsSpace(s[a])
    ensures SkipSpaces(s, i) == a
    decreases a - i
  {
    if i < a {
      SpacesEnd(s, i + 1, a);
    }
  }

  /** strtol reads the number that is written, clamped to a long. */
  lemma StrtolReads(s: string, i: nat, j: nat, v: int)
    requires i <= |s| && IsNumber(s, i, j, v)
    ensures Strtol(s, i) == (Clamp(v), j) && i < j
  {
    hide Value; hide Clamp;
    var a: nat, b: nat :| NumberAt(s, i, a, b, j, v);
    assert b == a ==> IsDigit(s[a]);
    SpacesEnd(s, i, a);
    DigitsEnd(s, b, j);
    HornerIsValue(s, b, j);
  }

  /** And what it reads is written. */
  lemma StrtolRead(s: string, i: nat) returns (v: int)
    requires i <= |s| && Strtol(s, i).1 != i
    ensures IsNumber(s, i, Strtol(s, i).1, v) && Strtol(s, i).0 == Clamp(v)
  {
    hide Value; hide Clamp;
    var a := SkipSpaces(s, i);
    var b := if a < |s| && (s[a] == '-' || s[a] == '+') then a + 1 else a;
    var j := SkipDigits(s, b);
    v := if b > a && s[a] == '-' then -Value(s[b..j]) else Value(s[b..j]);
    HornerIsValue(s, b, j);
    assert NumberAt(s, i, a, b, j, v);
  }

  lemma ClampYields(v: int, n: int)
    ensures Clamp(v) > 0 && ToInt(Clamp(v)) == n > 0 <==> Yields(v, n)
  {
  }

  /** Exactly the written numbers that yield a positive int are read as one. */
  lemma NumberRead(s: string, i: nat, j: nat, n: int)
    requires i <= |s|
    ensures ReadInteger(s, i, false) == (n, j) && n > 0 <==> SpellsNumber(s, i, j, n)
  {
    hide IsNumber; hide Clamp; hide Yields; hide ToInt; hide Strtol;
    if SpellsNumber(s, i, j, n) {
      var v :| IsNumber(s, i, j, v) && Yields(v, n);
      StrtolReads(s, i, j, v);
      ClampYields(v, n);
    }
    if ReadInteger(s, i, false) == (n, j) && n > 0 {
      var v := StrtolRead(s, i);
      ClampYields(v, n);
    }
  }

  /** What read_integer returns for a number that is written: minus one for a negative one, for zero unless that is
      allowed, and for one beyond a long; otherwise the number itself if it is an int, and else an int with the same
      lower 32 bits. */
  lemma IntegerRead(s: string, i: nat, j: nat, v: int, allowZero: bool)
    requires i <= |s| && IsNumber(s, i, j, v)
    ensures var (r, end) := ReadInteger(s, i, allowZero);
      && end == j
      && (v < 0 || (v == 0 && !allowZero) || v > LONG_MAX ==> r == -1)
      && (0 < v <= INT_MAX || (v == 0 && allowZero) ==> r == v)
      && (INT_MAX < v <= LONG_MAX ==> r % 0x1_0000_0000 == v % 0x1_0000_0000)
  {
    hide IsNumber; hide Strtol;
    StrtolReads(s, i, j, v);
  }

  /** Without a number it returns minus one. */
  lemma IntegerMissing(s: string, i: nat, allowZero: bool)
    requires i <= |s| && forall j: nat, v: int :: !IsNumber(s, i, j, v)
    ensures ReadInteger(s, i, allowZero).0 == -1
  {
    hide IsNumber;
    if Strtol(s, i).1 != i {
      var v := StrtolRead(s, i);
      assert false;
    }
  }

  /** Exactly when read_integer returns minus one: there is no number, or each number written is negative, zero where
      that is not allowed, beyond a long, or one whose lower 32 bits are all set. */
  lemma RefusedExactly(s: string, i: nat, allowZero: bool)
    requires i <= |s|
    ensures ReadInteger(s, i, allowZero).0 == -1 <==>
      forall j: nat, v: int :: IsNumber(s, i, j, v) ==>
        v < 0 || (v == 0 && !allowZero) || v > LONG_MAX || v % 0x1_0000_0000 == 0xFFFF_FFFF
  {
    hide IsNumber; hide ReadInteger; hide Strtol;
    forall j: nat, v: int | IsNumber(s, i, j, v)
      ensures ReadInteger(s, i, allowZero).0 == -1 <==>
        v < 0 || (v == 0 && !allowZero) || v > LONG_MAX || v % 0x1_0000_0000 == 0xFFFF_FFFF
    {
      IntegerRead(s, i, j, v, allowZero);
      IntegerRange(s, i, allowZero);
    }
    if forall j: nat, v: int :: !IsNumber(s, i, j, v) {
      IntegerMissing(s, i, allowZero);
    }
  }

  lemma IntegerRange(s: string, i: nat, allowZero: bool)
    requires i <= |s|
    ensures -INT_MAX - 1 <= ReadInteger(s, i, allowZero).0 <= INT_MAX
  {
  }

  /** The end of an item: nothing, or "(x", a number and ")". */
  ghost predicate EndsItem(s: string, end: nat, j: nat, n: int) {
    || (j == end && n == 1 && At(s, end) != '(')
    || (end + 3 <= j <= |s| && s[end] == '(' && s[end+1] == 'x' && SpellsNumber(s, end + 2, j - 1, n) && s[j-1] == ')')
  }

  /** s spells from i to j one item: a number, alone or followed by "(x", a number and ")". */
  ghost predicate SpellsItem(s: string, i: nat, j: nat, count: int, n: nat) {
    exists end: nat :: end <= |s| && SpellsNumber(s, i, end, count) && EndsItem(s, end, j, n)
  }

  /** s spells the list from i on: items separated by commas, where a comma may also end the string. */
  ghost predicate SpellsList(s: string, i: nat, list: seq<int>)
    requires i <= |s|
    decreases |s| - i
  {
    || (i == |s| && list == [])
    || exists j: nat, count: int, n: nat ::
         && i < j <= |s| && SpellsItem(s, i, j, count, n)
         && n <= |list| && list[..n] == Repeat(count, n)
         && if j == |s| then n == |list| else s[j] == ',' && SpellsList(s, j + 1, list[n..])
  }

  lemma ItemRead(s: string, i: nat, j: nat, count: int, n: nat)
    requires CString(s) && i < |s| && SpellsItem(s, i, j, count, n)
    ensures ReadInteger(s, i, false).0 == count > 0
    ensures ReadRepeat(s, ReadInteger(s, i, false).1) == (if At(s, ReadInteger(s, i, false).1) == '(' then n else 0, j)
    ensures n >= 1 && (At(s, ReadInteger(s, i, false).1) != '(' ==> n == 1)
  {
    hide ReadInteger; hide CString; hide SpellsNumber;
    var end: nat :| end <= |s| && SpellsNumber(s, i, end, count) && EndsItem(s, end, j, n);
    NumberRead(s, i, end, count);
    if j != end {
      NumberRead(s, end + 2, j - 1, n);
    }
  }

  /** A spelled item is taken in one step. */
  lemma TakesSpelled(s: string, i: nat, j: nat, count: int, n: nat, size: nat, before: seq<int>)
    requires CString(s) && i < j <= |s| && SpellsItem(s, i, j, count, n) && |before| + n <= size
    ensures ParseFrom(s, i, size, before) ==
      if j == |s| then Finish(size, before + Repeat(count, n))
      else if s[j] != ',' then Malformed
      else ParseFrom(s, j + 1, size, before + Repeat(count, n))
  {
    hide ReadInteger; hide ReadRepeat; hide CString; hide SpellsItem;
    ItemRead(s, i, j, count, n);
  }

  /** The items that the parser takes are the spelled ones. */
  lemma ReadItem(s: string, i: nat)
    requires CString(s) && i < |s|
    ensures var (count, end) := ReadInteger(s, i, false); var (repeat, next) := ReadRepeat(s, end);
      count > 0 && repeat >= 0 ==> SpellsItem(s, i, next, count, if repeat == 0 then 1 else repeat) && i < next
  {
    hide ReadInteger; hide CString; hide SpellsNumber;
    var (count, end) := ReadInteger(s, i, false);
    var (repeat, next) := ReadRepeat(s, end);
    if count > 0 && repeat >= 0 {
      NumberRead(s, i, end, count);
      if repeat > 0 {
        NumberRead(s, end + 2, next - 1, repeat);
      }
      assert EndsItem(s, end, next, if repeat == 0 then 1 else repeat);
    }
  }

  /** Exactly the spelled lists are accepted. */
  lemma {:induction false} AcceptsFrom(s: string, i: nat, size: nat, before: seq<int>, list: seq<int>)
    requires CString(s) && i <= |s| && |before| + |list| == size
    ensures ParseFrom(s, i, size, before) == Entries(before + list) <==> SpellsList(s, i, list)
    decreases |s| - i
  {
    hide ReadInteger; hide ReadRepeat; hide CString; hide SpellsItem;
    if i == |s| {
      assert before + [] == before;
    } else {
      if SpellsList(s, i, list) {
        SpelledIsAccepted(s, i, size, before, list);
      }
      if ParseFrom(s, i, size, before) == Entries(before + list) {
        AcceptedIsSpelled(s, i, size, before, list);
      }
    }
  }

  lemma {:induction false} SpelledIsAccepted(s: string, i: nat, size: nat, before: seq<int>, list: seq<int>)
    requires CString(s) && i < |s| && |before| + |list| == size && SpellsList(s, i, list)
    ensures ParseFrom(s, i, size, before) == Entries(before + list)
    decreases |s| - i, 0
  {
    hide ReadInteger; hide ReadRepeat; hide CString; hide SpellsItem;
    var j: nat, count: int, n: nat :|
      && i < j <= |s| && SpellsItem(s, i, j, count, n)
      && n <= |list| && list[..n] == Repeat(count, n)
      && if j == |s| then n == |list| else s[j] == ',' && SpellsList(s, j + 1, list[n..]);
    hide ParseFrom; hide SpellsList;
    TakesSpelled(s, i, j, count, n, size, before);
    var longer := before + Repeat(count, n);
    SplitList(before, list, n, Repeat(count, n));
    if j < |s| {
      AcceptsFrom(s, j + 1, size, longer, list[n..]);
    } else {
      assert list[n..] == [];
    }
  }

  lemma SplitList(before: seq<int>, list: seq<int>, n: nat, first: seq<int>)
    requires n <= |list| && list[..n] == first
    ensures before + list == (before + first) + list[n..]
  {
    assert list == first + list[n..];
  }

  lemma {:induction false} AcceptedIsSpelled(s: string, i: nat, size: nat, before: seq<int>, list: seq<int>)
    requires CString(s) && i < |s| && |before| + |list| == size
    requires ParseFrom(s, i, size, before) == Entries(before + list)
    ensures SpellsList(s, i, list)
    decreases |s| - i, 0
  {
    hide ReadInteger; hide ReadRepeat; hide CString; hide SpellsItem;
    ReadItem(s, i);
    var (count, end) := ReadInteger(s, i, false);
    var (repeat, j) := ReadRepeat(s, end);
    var n: nat := if repeat == 0 then 1 else repeat;
    var longer := before + Repeat(count, n);
    ExtendsList(s, i, size, before, list, n, longer, j);
    assert list[..n] == Repeat(count, n) && before + list == longer + list[n..] by {
      assert (before + list)[..|longer|] == longer;
      assert (before + list)[|before|..] == list;
    }
    if j < |s| {
      AcceptsFrom(s, j + 1, size, longer, list[n..]);
    }
  }

  /** The entries stored by one item stay in front of the result. */
  lemma ExtendsList(s: string, i: nat, size: nat, before: seq<int>, list: seq<int>, n: nat, longer: seq<int>, j: nat)
    requires CString(s) && i < |s| && |before| + |list| == size
    requires ParseFrom(s, i, size, before) == Entries(before + list)
    requires var (count, end) := ReadInteger(s, i, false); var (repeat, next) := ReadRepeat(s, end);
      j == next && n == (if repeat == 0 then 1 else repeat) && longer == before + Repeat(count, n)
    ensures longer <= before + list
  {
    hide ReadInteger; hide ReadRepeat; hide CString;
    if j < |s| && s[j] == ',' {
      KeepsPrefix(s, j + 1, size, longer);
    }
  }

  lemma {:induction false} KeepsPrefix(s: string, i: nat, size: nat, list: seq<int>)
    requires CString(s) && i <= |s|
    ensures ParseFrom(s, i, size, list).Entries? ==> list <= ParseFrom(s, i, size, list).list
    decreases |s| - i
  {
    hide ReadInteger; hide ReadRepeat; hide CString;
    if i < |s| {
      var (count, end) := ReadInteger(s, i, false);
      if count > 0 {
        var (repeat, next) := ReadRepeat(s, end);
        var n := if repeat == 0 then 1 else repeat;
        if repeat >= 0 && |list| + n <= size && next < |s| && s[next] == ',' {
          KeepsPrefix(s, next + 1, size, list + Repeat(count, n));
        }
      }
    }
  }

  /** The parser accepts a string for `size` nodes with the given entries exactly when the string spells them and
      there is one for each node. */
  lemma AcceptsExactly(s: string, size: nat, list: seq<int>)
    requires CString(s)
    ensures Parse(s, size) == Entries(list) <==> |list| == size && SpellsList(s, 0, list)
  {
    if |list| == size {
      AcceptsFrom(s, 0, size, [], list);
      assert [] + list == list;
    }
    AcceptedIsComplete(s, 0, size, []);
  }

  /** The items spelled from i on are too many for `room` nodes: one of them is, with all before it followed by
      commas. */
  ghost predicate Overflows(s: string, i: nat, room: int)
    requires i <= |s|
    decreases |s| - i
  {
    exists j: nat, count: int, n: nat ::
      && i < j <= |s| && SpellsItem(s, i, j, count, n)
      && (n > room || (j < |s| && s[j] == ',' && Overflows(s, j + 1, room - n)))
  }

  /** Exactly when the assertion against a store beyond the array fails. */
  lemma {:induction false} TooManyFrom(s: string, i: nat, size: nat, list: seq<int>)
    requires CString(s) && i <= |s| && |list| <= size
    ensures ParseFrom(s, i, size, list) == TooMany <==> i < |s| && Overflows(s, i, size - |list|)
    decreases |s| - i
  {
    hide ReadInteger; hide ReadRepeat; hide CString; hide SpellsItem;
    if i < |s| {
      if j: nat, count: int, n: nat :|
        && i < j <= |s| && SpellsItem(s, i, j, count, n)
        && (n > size - |list| || (j < |s| && s[j] == ',' && Overflows(s, j + 1, size - |list| - n)))
      {
        ItemRead(s, i, j, count, n);
        if n <= size - |list| {
          TooManyFrom(s, j + 1, size, list + Repeat(count, n));
          OverflowStarts(s, j + 1, size - |list| - n);
        }
      }
      if ParseFrom(s, i, size, list) == TooMany {
        OverflowFound(s, i, size, list);
      }
    }
  }

  lemma OverflowStarts(s: string, i: nat, room: int)
    requires i <= |s| && Overflows(s, i, room)
    ensures i < |s|
  {
    hide SpellsItem;
  }

  lemma {:induction false} OverflowFound(s: string, i: nat, size: nat, list: seq<int>)
    requires CString(s) && i < |s| && |list| <= size && ParseFrom(s, i, size, list) == TooMany
    ensures Overflows(s, i, size - |list|)
    decreases |s| - i, 0
  {
    hide ReadInteger; hide ReadRepeat; hide CString; hide SpellsItem;
    ReadItem(s, i);
    var (count, end) := ReadInteger(s, i, false);
    var (repeat, j) := ReadRepeat(s, end);
    var n: nat := if repeat == 0 then 1 else repeat;
    assert i < j <= |s| && SpellsItem(s, i, j, count, n);
    if n <= size - |list| {
      TooManyFrom(s, j + 1, size, list + Repeat(count, n));
    }
  }

  lemma TooManyExactly(s: string, size: nat)
    requires CString(s)
    ensures Parse(s, size) == TooMany <==> Overflows(s, 0, size)
  {
    hide ParseFrom; hide SpellsItem; hide CString; hide Overflows;
    TooManyFrom(s, 0, size, []);
    if Overflows(s, 0, size) {
      OverflowStarts(s, 0, size);
    }
  }

  /** A number of more than 31 bits is accepted as another one. */
  lemma AcceptsTooLarge(s: string)
    requires s == "4294967297"
    ensures Parse(s, 1) == Entries([1])
  {
    HornerOfTooLarge(s);
    DigitsEnd(s, 0, 10);
    assert SkipSpaces(s, 0) == 0;
    assert ReadInteger(s, 0, false) == (1, 10);
    assert [] + Repeat(1, 1) == [1];
  }

  lemma HornerOfTooLarge(s: string)
    requires s == "4294967297"
    ensures Horner(s, 0, 10) == 4294967297
  {
    assert Horner(s, 0, 3) == 429;
    assert Horner(s, 0, 6) == 429496;
    assert Horner(s, 0, 9) == 429496729;
  }

  // ---------------------------------------------------------------- printing

  /** One item of a task list: a count, and how often it is repeated if that is written out. */
  datatype Item = Item(count: nat, repeat: Option<nat>) {
    predicate Valid() {
      1 <= count <= INT_MAX && (repeat.Some? ==> 1 <= repeat.value <= INT_MAX)
    }

    function Expand(): seq<int> {
      Repeat(count, if repeat.Some? then repeat.value else 1)
    }

    function Print(): string {
      Decimal(count) + if repeat.Some? then "(x" + Decimal(repeat.value) + ")" else ""
    }
  }

  function Digit(d: nat): (c: char)
    requires d < 10
    ensures IsDigit(c) && DigitValue(c) == d
  {
    ('0' as int + d) as char
  }

  function Decimal(n: nat): (s: string)
    ensures |s| >= 1 && forall k :: 0 <= k < |s| ==> IsDigit(s[k])
  {
    if n < 10 then [Digit(n)] else Decimal(n / 10) + [Digit(n % 10)]
  }

  function Expand(items: seq<Item>): seq<int> {
    if items == [] then [] else items[0].Expand() + Expand(items[1..])
  }

  function Print(items: seq<Item>): string {
    if items == [] then ""
    else if |items| == 1 then items[0].Print()
    else items[0].Print() + "," + Print(items[1..])
  }

  predicate AllValid(items: seq<Item>) {
    forall k :: 0 <= k < |items| ==> items[k].Valid()
  }

  /** s holds w at position i. */
  ghost predicate Holds(s: string, i: nat, w: string) {
    i + |w| <= |s| && s[i..i+|w|] == w
  }

  lemma HoldsAt(s: string, i: nat, w: string, k: nat)
    requires Holds(s, i, w) && k < |w|
    ensures s[i + k] == w[k]
  {
    assert s[i..i+|w|][k] == w[k];
  }

  lemma HoldsConcat(s: string, i: nat, v: string, w: string)
    requires Holds(s, i, v + w)
    ensures Holds(s, i, v) && Holds(s, i + |v|, w)
  {
    assert s[i..i+|v|] == s[i..i+|v+w|][..|v|];
    assert s[i+|v|..i+|v|+|w|] == s[i..i+|v+w|][|v|..];
  }

  lemma {:induction false} HornerReadsDecimal(s: string, i: nat, n: nat)
    requires Holds(s, i, Decimal(n))
    ensures Horner(s, i, i + |Decimal(n)|) == n
  {
    var w := Decimal(n);
    HoldsAt(s, i, w, |w| - 1);
    if n < 10 {
      assert Horner(s, i, i) == 0;
    } else {
      HoldsConcat(s, i, Decimal(n / 10), [Digit(n % 10)]);
      HornerReadsDecimal(s, i, n / 10);
    }
  }

  lemma {:induction false} DigitsEnd(s: string, i: nat, j: nat)
    requires i <= j <= |s| && (forall k :: i <= k < j ==> IsDigit(s[k])) && (j < |s| ==> !IsDigit(s[j]))
    ensures SkipDigits(s, i) == j
    decreases j - i
  {
    if i < j {
      DigitsEnd(s, i + 1, j);
    }
  }

  /** A printed number followed by a non-digit is read back. */
  lemma ReadsDecimal(s: string, i: nat, n: nat)
    requires 1 <= n <= INT_MAX && Holds(s, i, Decimal(n))
    requires i + |Decimal(n)| < |s| ==> !IsDigit(s[i + |Decimal(n)|])
    ensures ReadInteger(s, i, false) == (n, i + |Decimal(n)|)
  {
    var w := Decimal(n);
    hide Decimal; hide Horner; hide SkipDigits; hide Holds;
    WithinString(s, i, w);
    forall k | i <= k < i + |w| ensures IsDigit(s[k]) {
      HoldsAt(s, i, w, k - i);
    }
    DigitsEnd(s, i, i + |w|);
    HornerReadsDecimal(s, i, n);
  }

  /** A printed repeat is read back. */
  lemma ReadsRepeat(s: string, i: nat, n: nat)
    requires CString(s) && 1 <= n <= INT_MAX && Holds(s, i, "(x" + (Decimal(n) + ")"))
    ensures ReadRepeat(s, i) == (n, i + |Decimal(n)| + 3)
  {
    hide ReadInteger; hide Decimal;
    var r := Decimal(n);
    HoldsConcat(s, i, "(x", r + ")");
    HoldsConcat(s, i + 2, r, ")");
    HoldsAt(s, i, "(x", 0);
    HoldsAt(s, i, "(x", 1);
    HoldsAt(s, i + 2 + |r|, ")", 0);
    ReadsDecimal(s, i + 2, n);
  }

  /** A printed item followed by a comma or the end is read back. */
  lemma ReadsItem(s: string, i: nat, item: Item)
    requires CString(s) && item.Valid() && Holds(s, i, item.Print())
    requires i + |item.Print()| < |s| ==> s[i + |item.Print()|] == ','
    ensures var (count, end) := ReadInteger(s, i, false);
      && count == item.count
      && ReadRepeat(s, end) == (if item.repeat.Some? then item.repeat.value else 0, i + |item.Print()|)
  {
    hide ReadInteger; hide Decimal; hide CString; hide ReadRepeat; hide Holds;
    if item.repeat.None? {
      PrintPlain(item);
      ReadsDecimal(s, i, item.count);
      NoRepeat(s, i + |item.Print()|);
    } else {
      var w, tail := Decimal(item.count), "(x" + (Decimal(item.repeat.value) + ")");
      PrintRepeated(item);
      HoldsConcat(s, i, w, tail);
      HoldsAt(s, i + |w|, tail, 0);
      WithinString(s, i + |w|, tail);
      ReadsDecimal(s, i, item.count);
      ReadsRepeat(s, i + |w|, item.repeat.value);
    }
  }

  lemma PrintPlain(item: Item)
    requires item.repeat.None?
    ensures item.Print() == Decimal(item.count)
  {
  }

  lemma PrintRepeated(item: Item)
    requires item.repeat.Some?
    ensures item.Print() == Decimal(item.count) + ("(x" + (Decimal(item.repeat.value) + ")"))
  {
    hide Decimal;
  }

  lemma NoRepeat(s: string, i: nat)
    requires CString(s) && i <= |s| && (i < |s| ==> s[i] != '(')
    ensures ReadRepeat(s, i) == (0, i)
  {
  }

  /** The parser takes a printed item in one step. */
  lemma TakesItem(s: string, i: nat, item: Item, size: nat, list: seq<int>)
    requires CString(s) && item.Valid() && Holds(s, i, item.Print()) && |item.Print()| > 0
    requires i + |item.Print()| < |s| ==> s[i + |item.Print()|] == ','
    requires |list| + |item.Expand()| <= size
    ensures var next := i + |item.Print()|;
      ParseFrom(s, i, size, list) ==
        if next == |s| then Finish(size, list + item.Expand())
        else ParseFrom(s, next + 1, size, list + item.Expand())
  {
    hide ReadInteger; hide ReadRepeat; hide CString; hide Item.Print; hide Holds;
    ReadsItem(s, i, item);
    assert i < |s| by {
      WithinString(s, i, item.Print());
    }
  }

  lemma WithinString(s: string, i: nat, w: string)
    requires Holds(s, i, w)
    ensures i + |w| <= |s|
  {
  }

  /** Round trip: however the runs of a list are grouped into items, parsing the printed items gives the list back. */
  lemma {:induction false} ReadsItems(s: string, i: nat, items: seq<Item>, size: nat, list: seq<int>)
    requires CString(s) && items != [] && AllValid(items)
    requires Holds(s, i, Print(items)) && i + |Print(items)| == |s|
    requires |list| + |Expand(items)| == size
    ensures ParseFrom(s, i, size, list) == Entries(list + Expand(items))
    decreases |items|
  {
    hide CString; hide Item.Print; hide Item.Expand; hide ParseFrom; hide Holds; hide Print; hide Expand;
    var item := items[0];
    PrintsSomething(item);
    ExpandFirst(items);
    if |items| == 1 {
      PrintOne(items);
      TakesItem(s, i, item, size, list);
    } else {
      PrintFirst(s, i, items);
      TakesItem(s, i, item, size, list);
      ReadsItems(s, i + |item.Print()| + 1, items[1..], size, list + item.Expand());
      assert (list + item.Expand()) + Expand(items[1..]) == list + Expand(items);
    }
  }

  lemma PrintOne(items: seq<Item>)
    requires |items| == 1
    ensures Print(items) == items[0].Print()
  {
  }

  lemma PrintMore(items: seq<Item>)
    requires |items| > 1
    ensures Print(items) == items[0].Print() + ("," + Print(items[1..]))
  {
    hide Item.Print;
    assert items[0].Print() + "," + Print(items[1..]) == items[0].Print() + ("," + Print(items[1..]));
  }

  lemma PrintFirst(s: string, i: nat, items: seq<Item>)
    requires |items| > 1 && Holds(s, i, Print(items))
    ensures var w, rest := items[0].Print(), Print(items[1..]);
      && |Print(items)| == |w| + 1 + |rest|
      && Holds(s, i, w)
      && Holds(s, i + |w| + 1, rest)
      && i + |w| < |s| && s[i + |w|] == ','
  {
    hide Item.Print; hide Holds;
    var w, rest := items[0].Print(), Print(items[1..]);
    PrintMore(items);
    hide Print;
    WithinString(s, i, w + ("," + rest));
    HoldsConcat(s, i, w, "," + rest);
    HoldsConcat(s, i + |w|, ",", rest);
    HoldsAt(s, i + |w|, ",", 0);
  }

  lemma ExpandFirst(items: seq<Item>)
    requires items != []
    ensures Expand(items) == items[0].Expand() + Expand(items[1..])
    ensures |items| == 1 ==> Expand(items) == items[0].Expand()
  {
    assert |items| == 1 ==> Expand(items[1..]) == [];
  }

  lemma PrintsSomething(item: Item)
    ensures |item.Print()| > 0
  {
  }

  lemma RoundTrip(items: seq<Item>)
    requires items != [] && AllValid(items)
    ensures CString(Print(items))
    ensures Parse(Print(items), |Expand(items)|) == Entries(Expand(items))
  {
    hide CString; hide Print; hide Expand; hide ParseFrom; hide Item.Valid;
    PrintsNoNul(items);
    var s := Print(items);
    assert s[0..|s|] == s;
    ReadsItems(s, 0, items, |Expand(items)|, []);
  }

  lemma {:induction false} PrintsNoNul(items: seq<Item>)
    ensures CString(Print(items))
    decreases |items|
  {
    if items != [] {
      PrintsNoNul(items[1..]);
    }
  }

  /** Every accepted list has a canonical spelling, one item per entry, which parses to the same list. */
  lemma AcceptedCanBeRespelled(s: string, size: nat) returns (items: seq<Item>)
    requires CString(s) && Parse(s, size).Entries? && size >= 1
    ensures AllValid(items) && |items| == size && CString(Print(items))
    ensures Parse(Print(items), size) == Parse(s, size)
  {
    AcceptedIsComplete(s, 0, size, []);
    var list := Parse(s, size).list;
    items := seq(size, k requires 0 <= k < size => Item(list[k], None));
    Spelled(list, items);
    RoundTrip(items);
  }

  lemma {:induction false} Spelled(list: seq<int>, items: seq<Item>)
    requires |items| == |list|
    requires forall k :: 0 <= k < |list| ==> 0 < list[k] && items[k] == Item(list[k], None)
    ensures Expand(items) == list
  {
    if items != [] {
      Spelled(list[1..], items[1..]);
      assert items[0].Expand() == [list[0]];
    }
  }

  // ---------------------------------------------------------------- the parser, over the caller's array

  /** read_slurm_tasks_ppn_parse. TooMany stands for the failed assertion before a store beyond the array. */
  method ParseTasksPerNode(s: string, tasksPerNode: array<int>) returns (r: Outcome)
    requires CString(s)
    modifies tasksPerNode
    ensures r == Parse(s, tasksPerNode.Length)
    ensures r.Entries? ==> tasksPerNode[..] == r.list
  {
    hide ReadInteger; hide ReadRepeat; hide CString;
    var index: nat := 0;
    var cur: nat := 0;
    while cur < |s|
      invariant index <= tasksPerNode.Length && cur <= |s|
      invariant ParseFrom(s, cur, tasksPerNode.Length, tasksPerNode[..index]) == Parse(s, tasksPerNode.Length)
      decreases |s| - cur
    {
      var (count, end) := ReadInteger(s, cur, false);
      if count <= 0 {
        return Malformed;
      }
      var (repeat, next) := ReadRepeat(s, end);
      if repeat < 0 {
        return Malformed;
      }
      var n: nat := if repeat == 0 then 1 else repeat;
      if index + n > tasksPerNode.Length {
        return TooMany;
      }
      Store(tasksPerNode, index, count, n);
      index := index + n;
      cur := next;
      if cur == |s| {
        break;
      }
      if s[cur] != ',' {
        return Malformed;
      }
      cur := cur + 1;
    }
    assert tasksPerNode[..tasksPerNode.Length] == tasksPerNode[..];
    r := if index != tasksPerNode.Length then Malformed else Entries(tasksPerNode[..]);
  }

  /** The inner loop, when there is room. */
  method Store(a: array<int>, index: nat, count: int, n: nat)
    requires index + n <= a.Length
    modifies a
    ensures a[..index+n] == old(a[..index]) + Repeat(count, n)
  {
    for i := 0 to n
      invariant a[..index+i] == old(a[..index]) + Repeat(count, i)
    {
      a[index + i] := count;
    }
  }
}
