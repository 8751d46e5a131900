/** The questionnaire's answer keys. Every answer is stored under the key
    `"Q" + str(idx)` for the 1-based position `idx` of its question in the
    catalog, and the prompt builder turns a key back into a catalog position
    with `int(key[1:]) - 1`. */
module Survey {
  import opened Wrappers

  /** Number of entries in the question catalog. */
  const CatalogSize := 45

  /** Python's default limit on the digits of a decimal integer text
      (`sys.int_info.default_max_str_digits`): both `int()` of a longer digit
      string and `str()` of a larger number raise `ValueError`. */
  const MaxDigits := 4300

  predicate IsDigit(ch: char) {
    '0' <= ch <= '9'
  }

  predicate AllDigits(s: string) {
    forall k :: 0 <= k < |s| ==> IsDigit(s[k])
  }

  function DigitChar(d: nat): (ch: char)
    requires d < 10
    ensures IsDigit(ch)
  {
    ('0' as int + d) as char
  }

  function DigitValue(ch: char): (d: nat)
    requires IsDigit(ch)
    ensures d < 10 && DigitChar(d) == ch
  {
    ch as int - '0' as int
  }

  /** `str(n)` for a non-negative integer: its decimal digits, most
      significant first. */
  function Decimal(n: nat): (r: string)
    ensures r != [] && AllDigits(r)
    ensures r[0] == '0' ==> n == 0
  {
    if n < 10 then [DigitChar(n)] else Decimal(n / 10) + [DigitChar(n % 10)]
  }

  /** The value of a string of decimal digits. */
  function DigitsValue(s: string): nat
    requires AllDigits(s)
  {
    if s == [] then 0 else 10 * DigitsValue(s[..|s| - 1]) + DigitValue(s[|s| - 1])
  }

  /** `int(s)` on runs of ASCII digits: a non-empty run of at most
      `MaxDigits` digits parses to its value; anything else is the
      `ValueError` branch. */
  function ParseInt(s: string): (r: Option<nat>)
    ensures r.Some? <==> 0 < |s| <= MaxDigits && AllDigits(s)
  {
    if 0 < |s| <= MaxDigits && AllDigits(s) then Some(DigitsValue(s)) else None
  }

  /** A larger number never has a shorter decimal text. */
  lemma {:induction false} DecimalMono(a: nat, b: nat)
    requires a <= b
    ensures |Decimal(a)| <= |Decimal(b)|
    decreases b
  {
    if a >= 10 {
      DecimalMono(a / 10, b / 10);
    }
  }

  /** Reading back what `str` wrote gives the number that was written. */
  lemma {:induction false} ParseDecimal(n: nat)
    requires |Decimal(n)| <= MaxDigits
    ensures ParseInt(Decimal(n)) == Some(n)
  {
    var r := Decimal(n);
    if n >= 10 {
      DecimalMono(n / 10, n);
      ParseDecimal(n / 10);
      assert r[..|r| - 1] == Decimal(n / 10);
      assert r[|r| - 1] == DigitChar(n % 10);
    } else {
      assert r[..0] == [];
      assert DigitValue(r[0]) == n;
      assert DigitsValue(r) == 10 * DigitsValue(r[..0]) + DigitValue(r[0]);
    }
  }

  /** The key under which the answer to question `idx` (1-based) is stored;
      `f"Q{idx}"` can only be written for a number `str` can print. */
  function Key(idx: nat): (r: string)
    requires |Decimal(idx)| <= MaxDigits
    ensures |r| >= 2 && r[0] == 'Q' && AllDigits(r[1..])
    ensures KeyIndex(r) == Some(idx - 1)
  {
    ParseDecimal(idx);
    assert ("Q" + Decimal(idx))[1..] == Decimal(idx);
    "Q" + Decimal(idx)
  }

  /** `int(key[1:]) - 1`: the catalog position a key names. The first
      character is dropped without being looked at. */
  function KeyIndex(key: string): (r: Option<int>)
    ensures r.Some? <==> 2 <= |key| <= MaxDigits + 1 && AllDigits(key[1..])
    ensures r.Some? ==> r.value >= -1
  {
    if key == [] then None
    else match ParseInt(key[1..])
      case None => None
      case Some(v) => Some(v - 1)
  }

  /** Python's `xs[k]`: a negative index counts from the end, and an index out
      of range on either side is the `IndexError` branch. */
  function PyIndex<T>(xs: seq<T>, k: int): (r: Option<T>)
    ensures r.Some? <==> -|xs| <= k < |xs|
    ensures r.Some? && k >= 0 ==> r.value == xs[k]
    ensures r.Some? && k < 0 ==> r.value == xs[|xs| + k]
  {
    if 0 <= k < |xs| then Some(xs[k])
    else if -|xs| <= k < 0 then Some(xs[|xs| + k])
    else None
  }

  /** Round trip: the key written for question `idx` decodes to `idx - 1`,
      which indexes that very question in a catalog of `n >= idx` entries. */
  lemma KeyRoundTrip<T>(questions: seq<T>, idx: nat)
    requires 1 <= idx <= |questions| && |Decimal(idx)| <= MaxDigits
    ensures KeyIndex(Key(idx)) == Some(idx - 1)
    ensures 0 <= idx - 1 < |questions|
    ensures PyIndex(questions, idx - 1) == Some(questions[idx - 1])
  {
    ParseDecimal(idx);
    assert Key(idx)[1..] == Decimal(idx);
  }

  /** Different questions get different keys, so filling the answer map never
      overwrites an earlier answer. */
  lemma KeyInjective(i: nat, j: nat)
    requires |Decimal(i)| <= MaxDigits && |Decimal(j)| <= MaxDigits
    requires Key(i) == Key(j)
    ensures i == j
  {
    ParseDecimal(i);
    ParseDecimal(j);
    assert Key(i)[1..] == Decimal(i);
    assert Key(j)[1..] == Decimal(j);
  }

  /** The answer map the questionnaire page builds, in insertion order: the
      answer to the question at position `k` (0-based) under `Key(k + 1)`. */
  function CollectAnswers(answers: seq<string>): (r: seq<(string, string)>)
    requires |Decimal(|answers|)| <= MaxDigits
    ensures |r| == |answers|
    ensures forall k :: 0 <= k < |r| ==> r[k].0 == "Q" + Decimal(k + 1)
    ensures forall k :: 0 <= k < |r| ==> KeyIndex(r[k].0) == Some(k) && r[k].1 == answers[k]
    ensures forall j, k :: 0 <= j < k < |r| ==> r[j].0 != r[k].0
  {
    seq(|answers|, k requires 0 <= k < |answers| =>
      DecimalMono(k + 1, |answers|);
      (Key(k + 1), answers[k]))
  }

  /** The key "Q0" is never written, but the decoder accepts it and Python's
      negative indexing then silently picks the last question of the catalog. */
  lemma KeyZeroPicksLastQuestion<T>(questions: seq<T>)
    requires questions != []
    ensures KeyIndex("Q0") == Some(-1)
    ensures PyIndex(questions, -1) == Some(questions[|questions| - 1])
  {
    assert "Q0"[1..] == "0";
    assert "0"[..0] == [];
  }
}
