/** Day 3: corrupted memory. `MulMatches` is get_mul_matches: the sum of the
    products of every literal `mul(a,b)` instruction, found by a hand-written
    scanner equivalent to the fixed regular expression
    `mul\(([0-9]{1,3}),([0-9]{1,3})\)`. `EnabledCode` is get_enabled_code: the
    text with the parts switched off by `don't()` removed. */
module Instructions {
  import opened Strings

  predicate IsDigit(c: char) {
    '0' <= c <= '9'
  }

  /** What `[0-9]{1,3}` matches: one to three decimal digits. */
  predicate Operand(x: string) {
    1 <= |x| <= 3 && forall k :: 0 <= k < |x| ==> IsDigit(x[k])
  }

  /** One match of `re.findall`: the two captured operand strings. */
  datatype Mul = Mul(x: string, y: string)

  predicate ValidMul(m: Mul) {
    Operand(m.x) && Operand(m.y)
  }

  /** A match of the pattern: both operands are one to three digits. */
  type Instruction = m: Mul | ValidMul(m) witness Mul("0", "0")

  /** The literal text of an instruction. */
  function MulText(m: Mul): string {
    "mul(" + m.x + "," + m.y + ")"
  }

  function DigitValue(c: char): nat
    requires IsDigit(c)
  {
    c as int - '0' as int
  }

  /** Python's `int(x)` for a string of decimal digits. */
  function DecimalValue(x: string): nat
    requires forall k :: 0 <= k < |x| ==> IsDigit(x[k])
  {
    if x == [] then 0
    else DecimalValue(x[..|x| - 1]) * 10 + DigitValue(x[|x| - 1])
  }

  function Pow10(n: nat): nat {
    if n == 0 then 1 else 10 * Pow10(n - 1)
  }

  /** An operand of `n` digits is below `10^n`. */
  lemma {:induction false} DecimalValueBound(x: string)
    requires forall k :: 0 <= k < |x| ==> IsDigit(x[k])
    ensures DecimalValue(x) < Pow10(|x|)
  {
    if x != [] {
      DecimalValueBound(x[..|x| - 1]);
    }
  }

  /** `int(x[0]) * int(x[1])` for one match. */
  function Product(m: Instruction): (p: nat)
    ensures p <= 999 * 999
  {
    OperandProductBound(m);
    DecimalValue(m.x) * DecimalValue(m.y)
  }

  lemma OperandProductBound(m: Mul)
    requires ValidMul(m)
    ensures 0 <= DecimalValue(m.x) * DecimalValue(m.y) <= 999 * 999
  {
    DecimalValueBound(m.x);
    DecimalValueBound(m.y);
    ProductBound(DecimalValue(m.x), DecimalValue(m.y));
  }

  lemma ProductBound(a: nat, b: nat)
    requires a < Pow10(3) && b < Pow10(3)
    ensures a * b <= 999 * 999
  {
    assert Pow10(3) == 1000;
    MulMonotonic(a, 999, b);
    MulMonotonic(b, 999, 999);
  }

  lemma {:induction false} MulMonotonic(x: nat, y: nat, c: nat)
    requires x <= y
    ensures x * c <= y * c
  {
    if c > 0 {
      MulMonotonic(x, y, c - 1);
      assert x * c == x * (c - 1) + x && y * c == y * (c - 1) + y;
    }
  }

  // ---------------------------------------------------------------------
  // The scanner

  /** The greedy `[0-9]{1,limit}` step: how many digits follow offset `i`,
      at most `limit`. */
  function DigitRun(s: string, i: nat, limit: nat): (n: nat)
    requires i <= |s|
    decreases limit
    ensures n <= limit && i + n <= |s|
    ensures forall k :: i <= k < i + n ==> IsDigit(s[k])
    ensures n < limit && i + n < |s| ==> !IsDigit(s[i + n])
  {
    if limit == 0 || i >= |s| || !IsDigit(s[i]) then 0
    else 1 + DigitRun(s, i + 1, limit - 1)
  }

  /** Tries the pattern at offset `i`. Backtracking to fewer digits can never
      help, since the character after a shorter run is itself a digit, so the
      greedy run decides the match. */
  function ParseMul(s: string, i: nat): (r: Option<Instruction>)
  {
    if !OccursAt(s, "mul(", i) then None
    else
      var a := i + 4;
      var n := DigitRun(s, a, 3);
      if n == 0 || a + n >= |s| || s[a + n] != ',' then None
      else
        var b := a + n + 1;
        var n' := DigitRun(s, b, 3);
        if n' == 0 || b + n' >= |s| || s[b + n'] != ')' then None
        else
          DigitRunOperand(s, a, n);
          DigitRunOperand(s, b, n');
          var m: Instruction := Mul(s[a..a + n], s[b..b + n']);
          Some(m)
  }

  /** A run of one to three digits is an operand. */
  lemma DigitRunOperand(s: string, a: nat, n: nat)
    requires 1 <= n <= 3 && a + n <= |s|
    requires forall k :: a <= k < a + n ==> IsDigit(s[k])
    ensures Operand(s[a..a + n])
  {
    var x := s[a..a + n];
    forall k | 0 <= k < n ensures IsDigit(x[k]) {
      assert x[k] == s[a + k];
    }
  }

  /** Every match is the literal text of the instruction it reports. */
  lemma ParseMulSound(s: string, i: nat)
    ensures ParseMul(s, i).Some? ==> OccursAt(s, MulText(ParseMul(s, i).value), i)
  {
    if ParseMul(s, i).Some? {
      var a := i + 4;
      var n := DigitRun(s, a, 3);
      var b := a + n + 1;
      var n' := DigitRun(s, b, 3);
      var m := ParseMul(s, i).value;
      assert OccursAt(s, "mul(", i) && s[a + n] == ',' && s[b + n'] == ')';
      assert m == Mul(s[a..a + n], s[b..b + n']);
      ParsedLayout(s, i, m);
    }
  }

  /** Text laid out as `mul(`, an operand, `,`, an operand and `)` holds the
      instruction. */
  lemma ParsedLayout(s: string, i: nat, m: Mul)
    requires var a, b := i + 4, i + 5 + |m.x|;
      && b + |m.y| < |s| && s[i..a] == "mul(" && s[a..a + |m.x|] == m.x && s[a + |m.x|] == ','
      && s[b..b + |m.y|] == m.y && s[b + |m.y|] == ')'
    ensures OccursAt(s, MulText(m), i)
  {
    var a, b := i + 4, i + 5 + |m.x|;
    var e := b + |m.y| + 1;
    var t := MulText(m);
    assert |t| == e - i;
    forall k | 0 <= k < |t| ensures s[i..e][k] == t[k] {
      if k < 4 {
        assert s[i..a][k] == s[i + k];
      } else if k < 4 + |m.x| {
        assert s[a..a + |m.x|][k - 4] == s[i + k];
      } else if 5 + |m.x| <= k < 5 + |m.x| + |m.y| {
        assert s[b..b + |m.y|][k - 5 - |m.x|] == s[i + k];
      }
    }
  }

  /** A run of exactly `n` digits that is followed by a non-digit (or reaches
      the limit) is what DigitRun measures. */
  lemma {:induction false} DigitRunExact(s: string, i: nat, limit: nat, n: nat)
    requires n <= limit && i + n <= |s|
    requires forall k :: i <= k < i + n ==> IsDigit(s[k])
    requires n < limit && i + n < |s| ==> !IsDigit(s[i + n])
    requires n < limit ==> i + n < |s|
    decreases limit
    ensures DigitRun(s, i, limit) == n
  {
    if n > 0 {
      DigitRunExact(s, i + 1, limit - 1, n - 1);
    }
  }

  /** Where the parts of an instruction sit inside text that holds it. */
  lemma MulTextLayout(s: string, i: nat, m: Mul)
    requires OccursAt(s, MulText(m), i)
    ensures var a, b := i + 4, i + 5 + |m.x|;
      && s[i..a] == "mul(" && s[a..a + |m.x|] == m.x && s[a + |m.x|] == ','
      && s[b..b + |m.y|] == m.y && b + |m.y| < |s| && s[b + |m.y|] == ')'
  {
    var t := MulText(m);
    var a, b := i + 4, i + 5 + |m.x|;
    assert |t| == b + |m.y| + 1 - i;
    assert forall k :: 0 <= k < |t| ==> s[i + k] == t[k] by {
      forall k | 0 <= k < |t| ensures s[i + k] == t[k] {
        assert s[i..i + |t|][k] == s[i + k];
      }
    }
    assert forall k :: 0 <= k < 4 ==> t[k] == "mul("[k];
    assert forall k :: 0 <= k < |m.x| ==> t[4 + k] == m.x[k];
    assert forall k :: 0 <= k < |m.y| ==> t[5 + |m.x| + k] == m.y[k];
    assert t[4 + |m.x|] == ',';
    assert s[b + |m.y|] == t[|t| - 1];
  }

  /** Every literal `mul(x,y)` with one to three digits per operand is found. */
  lemma ParseMulComplete(s: string, i: nat, m: Instruction)
    requires ValidMul(m) && OccursAt(s, MulText(m), i)
    ensures ParseMul(s, i) == Some(m)
  {
    var a, b := i + 4, i + 5 + |m.x|;
    MulTextLayout(s, i, m);
    assert OccursAt(s, "mul(", i);
    OperandRun(s, a, m.x, ',');
    OperandRun(s, b, m.y, ')');
  }

  /** The greedy digit run at an operand that a non-digit follows is the
      operand's length. */
  lemma OperandRun(s: string, a: nat, x: string, next: char)
    requires Operand(x) && a + |x| < |s| && s[a..a + |x|] == x && s[a + |x|] == next && !IsDigit(next)
    ensures DigitRun(s, a, 3) == |x|
  {
    assert forall k :: a <= k < a + |x| ==> s[k] == x[k - a];
    DigitRunExact(s, a, 3, |x|);
  }

  /** `re.findall(pattern, code)` from offset `i`: after a match the scan
      resumes at its end, otherwise one character further on. */
  function FindAll(s: string, i: nat): (r: seq<Instruction>)
    decreases |s| - i
  {
    if i >= |s| then []
    else match ParseMul(s, i)
      case Some(m) => [m] + FindAll(s, i + |MulText(m)|)
      case None => FindAll(s, i + 1)
  }

  /** `sum([int(x[0]) * int(x[1]) for x in matches])`. */
  function SumProducts(ms: seq<Instruction>): int
  {
    if ms == [] then 0 else Product(ms[0]) + SumProducts(ms[1..])
  }

  /** get_mul_matches. */
  function MulMatches(code: string): int {
    SumProducts(FindAll(code, 0))
  }

  // ---------------------------------------------------------------------
  // Reference definition: a sum over every offset of the text

  /** The product of the instruction that starts at offset `i`, if any. */
  function MulAt(s: string, i: nat): (p: nat)
    ensures p <= 999 * 999
  {
    match ParseMul(s, i)
    case Some(m) => Product(m)
    case None => 0
  }

  /** The sum of `MulAt` over the offsets `i` to the end. */
  function PositionalSum(s: string, i: nat): int
    decreases |s| - i
  {
    if i >= |s| then 0 else MulAt(s, i) + PositionalSum(s, i + 1)
  }

  /** An instruction starts with `m`. */
  lemma ParseMulNeedsM(s: string, i: nat)
    ensures ParseMul(s, i).Some? ==> i < |s| && s[i] == 'm'
  {
    if OccursAt(s, "mul(", i) {
      assert s[i] == s[i..i + 4][0];
    }
  }

  /** Offsets that do not hold an `m` start no instruction and add nothing. */
  lemma {:induction false} SkipWithoutM(s: string, lo: nat, hi: nat)
    requires lo <= hi <= |s|
    requires forall j :: lo <= j < hi ==> s[j] != 'm'
    decreases hi - lo
    ensures PositionalSum(s, lo) == PositionalSum(s, hi)
  {
    if lo < hi {
      ParseMulNeedsM(s, lo);
      SkipWithoutM(s, lo + 1, hi);
    }
  }

  /** Passing over an occurrence of `p` from its offset `from` on adds
      nothing when that part of `p` holds no `m`. */
  lemma SkipOccurrence(s: string, i: nat, p: string, from: nat)
    requires OccursAt(s, p, i) && from <= |p|
    requires forall k :: from <= k < |p| ==> p[k] != 'm'
    ensures PositionalSum(s, i + from) == PositionalSum(s, i + |p|)
  {
    forall j | i + from <= j < i + |p| ensures s[j] != 'm' {
      assert s[i..i + |p|][j - i] == s[j];
    }
    SkipWithoutM(s, i + from, i + |p|);
  }

  /** The text of an instruction has `m` only at its start. */
  lemma MulTextHasOneM(m: Mul)
    requires ValidMul(m)
    ensures forall k :: 1 <= k < |MulText(m)| ==> MulText(m)[k] != 'm'
  {
    var t := MulText(m);
    forall k | 1 <= k < |t| ensures t[k] != 'm' {
      if 4 <= k < 4 + |m.x| {
        assert t[k] == m.x[k - 4];
      } else if 5 + |m.x| <= k < 5 + |m.x| + |m.y| {
        assert t[k] == m.y[k - 5 - |m.x|];
      }
    }
  }

  lemma {:induction false} FindAllIsPositionalSum(s: string, i: nat)
    decreases |s| - i
    ensures SumProducts(FindAll(s, i)) == PositionalSum(s, i)
  {
    if i < |s| {
      ScanNextAdvances(s, i);
      FindAllIsPositionalSum(s, ScanNext(s, i));
      ScanStep(s, i);
    }
  }

  /** Where the scan resumes after looking at offset `i`: past the match, or
      one character on. */
  function ScanNext(s: string, i: nat): nat {
    match ParseMul(s, i)
    case Some(m) => i + |MulText(m)|
    case None => i + 1
  }

  lemma ScanNextAdvances(s: string, i: nat)
    requires i < |s|
    ensures i < ScanNext(s, i) <= |s|
  {
    match ParseMul(s, i)
    case Some(m) => FoundLength(s, i, m);
    case None =>
  }

  /** Both sums agree at `i` once they agree where the scan resumes. */
  lemma ScanStep(s: string, i: nat)
    requires i < |s|
    requires SumProducts(FindAll(s, ScanNext(s, i))) == PositionalSum(s, ScanNext(s, i))
    ensures SumProducts(FindAll(s, i)) == PositionalSum(s, i)
  {
    match ParseMul(s, i)
    case Some(m) => FoundStep(s, i, m);
    case None => NotFoundStep(s, i);
  }

  lemma FoundLength(s: string, i: nat, m: Instruction)
    requires ParseMul(s, i) == Some(m)
    ensures 0 < |MulText(m)| && i + |MulText(m)| <= |s|
  {
    ParseMulSound(s, i);
  }

  /** One step of the scan over a match: both sides take its product and
      move on past it, since no other instruction starts inside it. */
  lemma FoundStep(s: string, i: nat, m: Instruction)
    requires i < |s| && ParseMul(s, i) == Some(m)
    requires SumProducts(FindAll(s, ScanNext(s, i))) == PositionalSum(s, ScanNext(s, i))
    ensures SumProducts(FindAll(s, i)) == PositionalSum(s, i)
  {
    FindAllFound(s, i, m);
    PositionalFound(s, i, m);
  }

  lemma PositionalFound(s: string, i: nat, m: Instruction)
    requires i < |s| && ParseMul(s, i) == Some(m)
    ensures PositionalSum(s, i) == Product(m) + PositionalSum(s, ScanNext(s, i))
  {
    var t := MulText(m);
    assert ScanNext(s, i) == i + |t|;
    ParseMulSound(s, i);
    MulTextHasOneM(m);
    SkipOccurrence(s, i, t, 1);
    assert MulAt(s, i) == Product(m);
    assert PositionalSum(s, i) == MulAt(s, i) + PositionalSum(s, i + 1);
  }

  /** One step of the scan where no instruction starts. */
  lemma NotFoundStep(s: string, i: nat)
    requires i < |s| && ParseMul(s, i).None?
    requires SumProducts(FindAll(s, i + 1)) == PositionalSum(s, i + 1)
    ensures SumProducts(FindAll(s, i)) == PositionalSum(s, i)
  {
    assert FindAll(s, i) == FindAll(s, i + 1);
  }

  /** A match at `i` is the head of what the scan finds from `i`. */
  lemma FindAllFound(s: string, i: nat, m: Instruction)
    requires i < |s| && ParseMul(s, i) == Some(m)
    ensures SumProducts(FindAll(s, i)) == Product(m) + SumProducts(FindAll(s, ScanNext(s, i)))
  {
    FindAllHead(s, i, m);
    SumProductsCons(m, FindAll(s, ScanNext(s, i)));
  }

  lemma FindAllHead(s: string, i: nat, m: Instruction)
    requires i < |s| && ParseMul(s, i) == Some(m)
    ensures FindAll(s, i) == [m] + FindAll(s, ScanNext(s, i))
  {
  }

  lemma SumProductsCons(m: Instruction, ms: seq<Instruction>)
    ensures SumProducts([m] + ms) == Product(m) + SumProducts(ms)
  {
    assert ([m] + ms)[1..] == ms;
  }

  /** get_mul_matches adds up, over every offset of the text, the product of
      the instruction that starts there; no instruction is skipped by the
      non-overlapping scan. */
  lemma MulMatchesIsPositionalSum(code: string)
    ensures MulMatches(code) == PositionalSum(code, 0)
  {
    FindAllIsPositionalSum(code, 0);
  }

  /** Each match adds at most `999 * 999`, and nothing is negative. */
  lemma {:induction false} SumProductsBound(ms: seq<Instruction>)
    ensures 0 <= SumProducts(ms) <= 999 * 999 * |ms|
  {
    if ms != [] {
      SumProductsBound(ms[1..]);
    }
  }

  lemma MulMatchesBound(code: string)
    ensures 0 <= MulMatches(code) <= 999 * 999 * |FindAll(code, 0)|
  {
    SumProductsBound(FindAll(code, 0));
  }

  /** Text with an `m` only at its start holds at most the one instruction
      that starts there. */
  lemma SingleCandidate(s: string)
    requires |s| > 0 && forall j :: 1 <= j < |s| ==> s[j] != 'm'
    ensures MulMatches(s) == MulAt(s, 0)
  {
    MulMatchesIsPositionalSum(s);
    SkipWithoutM(s, 1, |s|);
  }

  /** The text of one instruction on its own yields exactly its product. */
  lemma SingleInstruction(m: Mul)
    requires ValidMul(m)
    ensures MulMatches(MulText(m)) == Product(m)
  {
    var t := MulText(m);
    MulTextHasOneM(m);
    SingleCandidate(t);
    assert t[0..|t|] == t;
    ParseMulComplete(t, 0, m);
  }

  /** An exact instruction counts. */
  lemma ExactInstructionCounts(s: string)
    requires s == "mul(2,4)"
    ensures MulMatches(s) == 8
  {
    var m := Mul("2", "4");
    assert s == MulText(m);
    SingleInstruction(m);
  }

  /** Text with an `m` only at its start where no instruction parses
      yields nothing. */
  lemma NothingParsed(s: string)
    requires |s| > 0 && forall j :: 1 <= j < |s| ==> s[j] != 'm'
    requires ParseMul(s, 0).None?
    ensures MulMatches(s) == 0
  {
    SingleCandidate(s);
  }

  /** Near misses count nothing: an operand of four digits, a space inside
      the brackets, square brackets. */
  lemma FourDigitOperandIgnored()
    ensures MulMatches("mul(1234,5)") == 0
  {
    var s := "mul(1234,5)";
    assert forall j :: 1 <= j < |s| ==> s[j] != 'm';
    FourDigitOperandRejected(s);
    NothingParsed(s);
  }

  lemma FourDigitOperandRejected(s: string)
    requires s == "mul(1234,5)"
    ensures ParseMul(s, 0).None?
  {
    assert s[0..4] == "mul(";
    assert DigitRun(s, 4, 3) == 3;
    assert s[7] == '4';
  }

  lemma SpaceIgnored()
    ensures MulMatches("mul(1, 2)") == 0
  {
    var s := "mul(1, 2)";
    assert forall j :: 1 <= j < |s| ==> s[j] != 'm';
    SpaceRejected(s);
    NothingParsed(s);
  }

  lemma SpaceRejected(s: string)
    requires s == "mul(1, 2)"
    ensures ParseMul(s, 0).None?
  {
    assert s[0..4] == "mul(";
    assert DigitRun(s, 4, 3) == 1;
    assert DigitRun(s, 6, 3) == 0;
  }

  lemma SquareBracketsIgnored()
    ensures MulMatches("mul[3,7]") == 0
  {
    var s := "mul[3,7]";
    assert forall j :: 1 <= j < |s| ==> s[j] != 'm';
    assert s[0..4] != "mul(" by {
      assert s[3] == '[';
    }
    NothingParsed(s);
  }

  // ---------------------------------------------------------------------
  // get_enabled_code

  const Dont: string := "don't()"
  const Do: string := "do()"

  /** `"".join(item.split("do()")[1:])`: a segment that followed a `don't()`
      loses everything up to its first `do()`, and its other `do()` markers. */
  function KeptAfterDont(segment: string): string {
    Concat(Split(segment, Do)[1..])
  }

  /** get_enabled_code. */
  function EnabledCode(code: string): string {
    var items := Split(code, Dont);
    Concat([items[0]] + seq(|items| - 1, k requires 0 <= k < |items| - 1 => KeptAfterDont(items[k + 1])))
  }

  /** `"".join` of the kept parts of a list of segments. */
  function ConcatKept(items: seq<string>): string {
    if items == [] then "" else KeptAfterDont(items[0]) + ConcatKept(items[1..])
  }

  lemma {:induction false} ConcatKeptIsConcat(items: seq<string>)
    ensures ConcatKept(items) ==
      Concat(seq(|items|, k requires 0 <= k < |items| => KeptAfterDont(items[k])))
  {
    if items != [] {
      ConcatKeptIsConcat(items[1..]);
      var whole := seq(|items|, k requires 0 <= k < |items| => KeptAfterDont(items[k]));
      assert whole[1..] == seq(|items| - 1, k requires 0 <= k < |items| - 1 => KeptAfterDont(items[1..][k]));
    }
  }

  /** EnabledCode keeps the text before the first `don't()` and appends the
      kept part of every later segment. */
  lemma EnabledCodeStructure(code: string)
    ensures EnabledCode(code) == Split(code, Dont)[0] + ConcatKept(Split(code, Dont)[1..])
  {
    var items := Split(code, Dont);
    var kept := seq(|items| - 1, k requires 0 <= k < |items| - 1 => KeptAfterDont(items[k + 1]));
    ConcatKeptIsConcat(items[1..]);
    assert kept == seq(|items[1..]|, k requires 0 <= k < |items[1..]| => KeptAfterDont(items[1..][k]));
    ConcatCons(items[0], kept);
  }

  /** Text without `don't()` is returned unchanged. */
  lemma EnabledCodeWithoutDont(code: string)
    requires !Contains(code, Dont)
    ensures EnabledCode(code) == code
  {
    SplitWithoutSeparator(code, Dont);
    EnabledCodeStructure(code);
  }

  /** The text before the first `don't()` is kept verbatim. */
  lemma EnabledCodeKeepsLeadingText(code: string, k: nat)
    requires OccursAt(code, Dont, k)
    requires forall j :: 0 <= j < k ==> !OccursAt(code, Dont, j)
    ensures |EnabledCode(code)| >= k && EnabledCode(code)[..k] == code[..k]
  {
    EnabledCodeStructure(code);
    FindFromFirst(code, Dont, 0, k);
  }

  /** A segment with no `do()` is dropped; otherwise what is kept is the text
      after its first `do()` with every further `do()` deleted, that is the
      pieces that, joined again with `do()`, give back that text. */
  lemma KeptAfterDontCharacterization(segment: string)
    ensures !Contains(segment, Do) ==> KeptAfterDont(segment) == ""
    ensures forall k :: FindFrom(segment, Do, 0) == Some(k) ==>
      var pieces := Split(segment[k + |Do|..], Do);
      KeptAfterDont(segment) == Concat(pieces) && Join(pieces, Do) == segment[k + |Do|..]
  {
    if !Contains(segment, Do) {
      SplitWithoutSeparator(segment, Do);
    }
    match FindFrom(segment, Do, 0)
    case None =>
    case Some(k) =>
      SplitJoin(segment[k + |Do|..], Do);
      assert Split(segment, Do)[1..] == Split(segment[k + |Do|..], Do);
  }

  /** Deleting every occurrence of a separator shortens the text by the
      separator's length once per occurrence removed. */
  lemma ConcatSplitLength(s: string, sep: string)
    requires |sep| > 0
    ensures |Concat(Split(s, sep))| == |s| - (|Split(s, sep)| - 1) * |sep|
  {
    SplitJoin(s, sep);
    JoinLength(Split(s, sep), sep);
  }

  lemma KeptAfterDontLength(segment: string)
    ensures |KeptAfterDont(segment)| <= |segment|
  {
    var pieces := Split(segment, Do);
    ConcatSplitLength(segment, Do);
    ConcatCons(pieces[0], pieces[1..]);
    assert [pieces[0]] + pieces[1..] == pieces;
  }

  lemma {:induction false} ConcatKeptLength(items: seq<string>)
    ensures |ConcatKept(items)| <= |Concat(items)|
  {
    if items != [] {
      KeptAfterDontLength(items[0]);
      ConcatKeptLength(items[1..]);
    }
  }

  /** The output is never longer than the input, and it is exactly as long
      only when the input has no `don't()`. */
  lemma EnabledCodeLength(code: string)
    ensures |EnabledCode(code)| <= |code|
    ensures |EnabledCode(code)| == |code| <==> !Contains(code, Dont)
  {
    var items := Split(code, Dont);
    EnabledCodeStructure(code);
    ConcatSplitLength(code, Dont);
    ConcatKeptLength(items[1..]);
    ConcatCons(items[0], items[1..]);
    assert [items[0]] + items[1..] == items;
    if Contains(code, Dont) {
      SplitWithSeparator(code, Dont);
    } else {
      EnabledCodeWithoutDont(code);
    }
  }

  // ---------------------------------------------------------------------
  // Filtering text and then scanning it can create instructions

  /** The input that shows the discrepancy: the first operand is written
      before a `don't()`, the second after the `do()` that follows it. */
  const Glued: string := "mul(2,don't()do()3)"

  /** Removing `don't()` ... `do()` joins the two halves into `mul(2,3)`,
      although the original text holds no complete instruction. */
  lemma GluedInstructionCounterexample()
    ensures MulMatches(Glued) == 0
    ensures EnabledCode(Glued) == "mul(2,3)"
    ensures MulMatches(EnabledCode(Glued)) == 6
  {
    GluedHasNoInstruction();
    GluedFiltered();
    GluedJoinedCounts(EnabledCode(Glued));
  }

  lemma GluedHasNoInstruction()
    ensures MulMatches(Glued) == 0
  {
    GluedOnlyCandidateFails();
    GluedHasOneM();
    SingleCandidate(Glued);
  }

  lemma GluedOnlyCandidateFails()
    ensures ParseMul(Glued, 0) == None
  {
    assert DigitRun(Glued, 4, 3) == 1;
    assert DigitRun(Glued, 6, 3) == 0;
  }

  lemma GluedHasOneM()
    ensures forall j :: 1 <= j < |Glued| ==> Glued[j] != 'm'
  {
  }

  lemma GluedSplit()
    ensures Split(Glued, Dont) == ["mul(2,", "do()3)"]
  {
    forall j | 0 <= j < 6 ensures !OccursAt(Glued, Dont, j) {
      if OccursAt(Glued, Dont, j) {
        OccursAtHead(Glued, Dont, j);
      }
    }
    assert Glued[6..13] == Dont;
    FindFromFirst(Glued, Dont, 0, 6);
    SplitAtFirst(Glued, Dont, 6);
    assert Glued[..6] == "mul(2," && Glued[13..] == "do()3)";
    SplitWithoutSeparator("do()3)", Dont);
  }

  lemma GluedSecondSegment()
    ensures ConcatKept(["do()3)"]) == "3)"
  {
    var seg := "do()3)";
    assert seg[0..4] == Do;
    FindFromFirst(seg, Do, 0, 0);
    SplitAtFirst(seg, Do, 0);
    assert seg[..0] == "" && seg[4..] == "3)";
    SplitWithoutSeparator("3)", Do);
    assert KeptAfterDont(seg) == Concat(["3)"]) == "3)";
  }

  lemma GluedFiltered()
    ensures EnabledCode(Glued) == "mul(2,3)"
  {
    GluedSplit();
    GluedSecondSegment();
    EnabledCodeStructure(Glued);
    var items := Split(Glued, Dont);
    assert items[0] == "mul(2," && items[1..] == ["do()3)"];
  }

  lemma GluedJoinedCounts(s: string)
    requires s == "mul(2,3)"
    ensures MulMatches(s) == 6
  {
    var m := Mul("2", "3");
    assert s == MulText(m);
    SingleInstruction(m);
  }

  /** Switching instructions on and off without editing the text: scanning
      from offset `i` with the switch in state `enabled`, `don't()` turns it
      off, `do()` turns it on, and an instruction counts only while it is on. */
  function EnabledMulSum(code: string, i: nat, enabled: bool): int
    decreases |code| - i
  {
    if i >= |code| then 0
    else if OccursAt(code, Dont, i) then EnabledMulSum(code, i + |Dont|, false)
    else if OccursAt(code, Do, i) then EnabledMulSum(code, i + |Do|, true)
    else (if enabled then MulAt(code, i) else 0) + EnabledMulSum(code, i + 1, enabled)
  }

  /** A marker holds no `m`, so skipping it passes over no instruction. */
  lemma SkipMarker(code: string, i: nat, marker: string)
    requires marker == Dont || marker == Do
    requires OccursAt(code, marker, i)
    ensures PositionalSum(code, i) == PositionalSum(code, i + |marker|)
  {
    assert forall k :: 0 <= k < |marker| ==> marker[k] != 'm';
    SkipOccurrence(code, i, marker, 0);
  }

  /** Switching instructions off can only lower the total: the result lies
      between zero and the sum of every instruction of the unfiltered text. */
  lemma {:induction false} EnabledMulSumBounded(code: string, i: nat, enabled: bool)
    decreases |code| - i
    ensures 0 <= EnabledMulSum(code, i, enabled) <= PositionalSum(code, i)
  {
    if i < |code| {
      if OccursAt(code, Dont, i) {
        SkipMarker(code, i, Dont);
        EnabledMulSumBounded(code, i + |Dont|, false);
      } else if OccursAt(code, Do, i) {
        SkipMarker(code, i, Do);
        EnabledMulSumBounded(code, i + |Do|, true);
      } else {
        EnabledMulSumBounded(code, i + 1, enabled);
      }
    }
  }

  /** Without any `don't()` every instruction counts, as in get_mul_matches. */
  lemma {:induction false} EnabledMulSumWithoutDont(code: string, i: nat)
    requires forall j :: i <= j ==> !OccursAt(code, Dont, j)
    decreases |code| - i
    ensures EnabledMulSum(code, i, true) == PositionalSum(code, i)
  {
    if i < |code| {
      if OccursAt(code, Do, i) {
        SkipMarker(code, i, Do);
        EnabledMulSumWithoutDont(code, i + |Do|);
      } else {
        EnabledMulSumWithoutDont(code, i + 1);
      }
    }
  }

  /** On the glued input the switch gives 0, where filtering the text gives 6. */
  lemma GluedInstructionCorrected()
    ensures EnabledMulSum(Glued, 0, true) == 0
  {
    GluedHasNoInstruction();
    MulMatchesIsPositionalSum(Glued);
    EnabledMulSumBounded(Glued, 0, true);
  }
}
