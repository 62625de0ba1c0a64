/**
 * `generate_short_names`: the endless stream a, b, …, z, A, …, Z, aa, ab, …
 * of CSS-valid class and id names.
 *
 * The n-th name (counting from 0) is n + 1 written in bijective base 52 with
 * the digits `string.ascii_letters`; `Value` reads such a word back.
 */
module ShortNames {

  const Base: nat := 52

  predicate IsLetter(c: char) {
    'a' <= c <= 'z' || 'A' <= c <= 'Z'
  }

  predicate AllLetters(s: string) {
    forall i :: 0 <= i < |s| ==> IsLetter(s[i])
  }

  /** The k-th character of `string.ascii_letters`: a to z, then A to Z. */
  function Letter(k: nat): (c: char)
    requires k < Base
    ensures IsLetter(c)
  {
    if k < 26 then (('a' as int) + k) as char else (('A' as int) + k - 26) as char
  }

  /** The position of a letter in `string.ascii_letters`. */
  function LetterIndex(c: char): (k: nat)
    requires IsLetter(c)
    ensures k < Base && Letter(k) == c
  {
    if 'a' <= c <= 'z' then c as int - 'a' as int else c as int - 'A' as int + 26
  }

  lemma LetterIndexOfLetter(k: nat)
    requires k < Base
    ensures LetterIndex(Letter(k)) == k
  {
  }

  /** `m` in bijective base 52: the empty word for 0, otherwise the word of `(m - 1) / 52` followed by one digit. */
  function Bijective(m: nat): (s: string)
    ensures AllLetters(s)
    ensures |s| == 0 <==> m == 0
  {
    if m == 0 then [] else Bijective((m - 1) / Base) + [Letter((m - 1) % Base)]
  }

  /** The value of a word of letters read in bijective base 52. */
  function Value(s: string): (m: nat)
    requires AllLetters(s)
    ensures m == 0 <==> s == []
  {
    if s == [] then 0 else Value(s[..|s| - 1]) * Base + LetterIndex(s[|s| - 1]) + 1
  }

  lemma {:induction false} ValueOfBijective(m: nat)
    ensures Value(Bijective(m)) == m
  {
    if m > 0 {
      var q, r := (m - 1) / Base, (m - 1) % Base;
      ValueOfBijective(q);
      var s := Bijective(m);
      assert s == Bijective(q) + [Letter(r)];
      assert s[..|s| - 1] == Bijective(q) && s[|s| - 1] == Letter(r);
      LetterIndexOfLetter(r);
      assert Value(s) == q * Base + r + 1;
    }
  }

  lemma {:induction false} BijectiveOfValue(s: string)
    requires AllLetters(s)
    ensures Bijective(Value(s)) == s
  {
    if s != [] {
      var init := s[..|s| - 1];
      var k := LetterIndex(s[|s| - 1]);
      BijectiveOfValue(init);
      var m := Value(s);
      assert m - 1 == Value(init) * Base + k;
      assert (m - 1) / Base == Value(init) && (m - 1) % Base == k;
      assert s == init + [s[|s| - 1]];
    }
  }

  /** The name the generator yields `n`-th, counting from 0. */
  function ShortName(n: nat): (name: string)
    ensures |name| > 0 && AllLetters(name)
  {
    Bijective(n + 1)
  }

  /** Decoding the name recovers its position in the stream. */
  lemma ShortNameValue(n: nat)
    ensures Value(ShortName(n)) == n + 1
  {
    ValueOfBijective(n + 1);
  }

  /** Every non-empty word of letters occurs in the stream. */
  lemma ShortNameOnto(s: string)
    requires |s| > 0 && AllLetters(s)
    ensures exists n: nat :: ShortName(n) == s
  {
    var m := Value(s);
    BijectiveOfValue(s);
    assert m != 0 && Bijective(m) == s;
    var n: nat := m - 1;
    assert ShortName(n) == s;
  }

  /** The stream never repeats a name. */
  lemma ShortNameInjective(n: nat, m: nat)
    ensures ShortName(n) == ShortName(m) <==> n == m
  {
    ShortNameValue(n);
    ShortNameValue(m);
  }

  /** The first 52 names are the single letters, in `string.ascii_letters` order. */
  lemma SingleLetters(n: nat)
    ensures n < Base ==> ShortName(n) == [Letter(n)]
    ensures n >= Base ==> |ShortName(n)| >= 2
  {
    if n >= Base {
      assert (n + 1 - 1) / Base >= 1;
    }
  }

  /** The next 52 * 52 names are the two-letter words. */
  lemma TwoLetters(n: nat)
    requires Base <= n < Base + Base * Base
    ensures ShortName(n) == [Letter((n - Base) / Base), Letter(n % Base)]
  {
    var q := n / Base;
    assert 1 <= q <= Base;
    assert ShortName(n) == Bijective(q) + [Letter(n % Base)];
    assert Bijective(q) == [Letter(q - 1)];
    assert (n - Base) / Base == q - 1;
  }

  /** Bijective words grow with their value. */
  lemma {:induction false} BijectiveLengthMonotone(m: nat, k: nat)
    requires m <= k
    ensures |Bijective(m)| <= |Bijective(k)|
  {
    if m > 0 {
      BijectiveLengthMonotone((m - 1) / Base, (k - 1) / Base);
    }
  }

  /** Names never get shorter further down the stream. */
  lemma ShortNameLengthMonotone(n: nat, m: nat)
    requires n <= m
    ensures |ShortName(n)| <= |ShortName(m)|
  {
    BijectiveLengthMonotone(n + 1, m + 1);
  }

  /** The body of the generator's loop for the counter value `n`. */
  method ShortNameLoop(n: nat) returns (name: string)
    ensures name == ShortName(n)
  {
    name := [Letter(n % Base)];
    var num: nat := n / Base;
    assert (n + 1 - 1) / Base == num && (n + 1 - 1) % Base == n % Base;
    while num > 0
      invariant Bijective(num) + name == ShortName(n)
      decreases num
    {
      ghost var before := num;
      num := num - 1;
      assert Bijective(before) == Bijective(num / Base) + [Letter(num % Base)];
      name := [Letter(num % Base)] + name;
      num := num / Base;
    }
  }
}
