/**
 * The password generator: the character set for each complexity level,
 * the generator itself, and the checks the console front end applies to
 * the requested length and complexity before generating.
 *
 * Randomness is a stream `rolls: nat -> nat` of the generator's draws:
 * the k-th draw picks `s[rolls(k) % |s|]` from a string `s`, and the
 * shuffle is the Fisher-Yates pass of Python's `random.shuffle`, fed from
 * the same stream. Any stream is allowed, so every property below holds
 * whatever the random numbers are.
 */
module Password {

  const Lowercase: string := "abcdefghijklmnopqrstuvwxyz"
  const Uppercase: string := "ABCDEFGHIJKLMNOPQRSTUVWXYZ"
  const Digits: string := "0123456789"
  const Symbols: string := "!@#$%^&*()_+-=[]{}|;:,.<>?"

  /** The set for levels 1 to 4; any other level gets the level-4 set. */
  function CharacterSet(complexity: int): (chars: string)
    ensures |chars| > 0
  {
    if complexity == 1 then Lowercase
    else if complexity == 2 then Lowercase + Uppercase
    else if complexity == 3 then Lowercase + Uppercase + Digits
    else Lowercase + Uppercase + Digits + Symbols
  }

  /** Each level's set begins with the previous level's set, and unknown levels fall back to level 4. */
  lemma CharacterSetsNested(complexity: int)
    ensures CharacterSet(1) <= CharacterSet(2) <= CharacterSet(3) <= CharacterSet(4)
    ensures |CharacterSet(1)| == 26 && |CharacterSet(2)| == 52 && |CharacterSet(3)| == 62 && |CharacterSet(4)| == 88
    ensures !(1 <= complexity <= 4) ==> CharacterSet(complexity) == CharacterSet(4)
  {
    assert Lowercase <= Lowercase + Uppercase;
    assert Lowercase + Uppercase <= Lowercase + Uppercase + Digits;
    assert Lowercase + Uppercase + Digits <= Lowercase + Uppercase + Digits + Symbols;
  }

  /** The level-4 set is exactly the union of the four categories. */
  lemma FullSetIsAllCategories(c: char)
    ensures c in CharacterSet(4) <==> c in Lowercase || c in Uppercase || c in Digits || c in Symbols
  {
  }

  function Max(a: int, b: int): int { if a < b then b else a }

  /** `random.choice(s)`, the pick made by draw `roll`. */
  function Choice(s: string, roll: nat): (c: char)
    requires |s| > 0
    ensures c in s
  {
    s[roll % |s|]
  }

  /** Levels other than 4: `length` independent picks from the level's set (none for a negative length). */
  function PlainPassword(chars: string, length: int, rolls: nat -> nat): (p: string)
    requires |chars| > 0
    ensures |p| == Max(length, 0)
    ensures forall i :: 0 <= i < |p| ==> p[i] in chars
  {
    var p := seq(Max(length, 0), i requires 0 <= i => Choice(chars, rolls(i)));
    assert forall i :: 0 <= i < |p| ==> p[i] == Choice(chars, rolls(i));
    p
  }

  /** The length the generator produces: level 4 always includes its four seeded characters. */
  function PasswordLength(length: int, complexity: int): nat {
    if complexity == 4 then Max(length, 4) else Max(length, 0)
  }

  /** At least one lowercase letter, one uppercase letter, one digit and one symbol. */
  predicate HasEveryCategory(p: string) {
    HasCharFrom(p, Lowercase) && HasCharFrom(p, Uppercase) && HasCharFrom(p, Digits) && HasCharFrom(p, Symbols)
  }

  /** Some character of `p` belongs to `category`. */
  predicate HasCharFrom(p: string, category: string) {
    exists i :: 0 <= i < |p| && p[i] in category
  }

  /**
   * Python's `random.shuffle`: for i from the last index down to 1, swap
   * position i with a position drawn from 0..i. Draws are taken from
   * `rolls` starting at number `first`. The result is a permutation.
   */
  method Shuffle(a: array<char>, rolls: nat -> nat, first: nat)
    modifies a
    ensures multiset(a[..]) == multiset(old(a[..]))
  {
    var i := a.Length - 1;
    while i > 0
      invariant i < a.Length
      invariant multiset(a[..]) == multiset(old(a[..]))
    {
      var j := rolls(first + (a.Length - 1 - i)) % (i + 1);
      a[i], a[j] := a[j], a[i];
      i := i - 1;
    }
  }

  /**
   * `generate_password`. Every character comes from the level's set and the
   * length is `PasswordLength`; at level 4 one character of each category is
   * seeded first, the rest is filled from the full set, and the whole is
   * shuffled, so every category is present.
   */
  method GeneratePassword(length: int, complexity: int, rolls: nat -> nat) returns (password: string)
    ensures |password| == PasswordLength(length, complexity)
    ensures forall i :: 0 <= i < |password| ==> password[i] in CharacterSet(complexity)
    ensures complexity == 4 ==> HasEveryCategory(password)
  {
    var chars := CharacterSet(complexity);
    if complexity != 4 {
      return PlainPassword(chars, length, rolls);
    }
    var lower, upper, digit, symbol := Choice(Lowercase, rolls(0)), Choice(Uppercase, rolls(1)),
                                       Choice(Digits, rolls(2)), Choice(Symbols, rolls(3));
    FullSetIsAllCategories(lower);
    FullSetIsAllCategories(upper);
    FullSetIsAllCategories(digit);
    FullSetIsAllCategories(symbol);
    var picked := [lower, upper, digit, symbol];
    var k := 0;
    while k < length - 4
      invariant 0 <= k <= Max(length - 4, 0) && |picked| == 4 + k
      invariant picked[..4] == [lower, upper, digit, symbol]
      invariant forall i :: 0 <= i < |picked| ==> picked[i] in chars
    {
      picked := picked + [Choice(chars, rolls(4 + k))];
      k := k + 1;
    }
    assert picked[0] == lower && picked[1] == upper && picked[2] == digit && picked[3] == symbol by {
      assert picked[..4][0] == picked[0] && picked[..4][1] == picked[1];
      assert picked[..4][2] == picked[2] && picked[..4][3] == picked[3];
    }
    var a := new char[|picked|](i requires 0 <= i < |picked| => picked[i]);
    assert a[..] == picked;
    Shuffle(a, rolls, |picked|);
    password := a[..];
    Keeps(picked, password, 0, Lowercase);
    Keeps(picked, password, 1, Uppercase);
    Keeps(picked, password, 2, Digits);
    Keeps(picked, password, 3, Symbols);
    forall i | 0 <= i < |password| ensures password[i] in chars {
      assert password[i] in multiset(picked);
    }
  }

  /** A permutation of `a` keeps a character of `a[k]`'s category. */
  lemma Keeps(a: string, b: string, k: nat, category: string)
    requires multiset(b) == multiset(a) && k < |a| && a[k] in category
    ensures HasCharFrom(b, category)
  {
    assert a[k] in multiset(b);
    var j :| 0 <= j < |b| && b[j] == a[k];
  }

  /** What the console front end does with a requested length and complexity. */
  datatype Verdict = TooShort | TooLong | InvalidComplexity | FullNeedsFour | Generate

  /**
   * The checks in the order the front end makes them. It generates exactly
   * when 4 <= length <= 128 and the level is 1 to 4; its later check that
   * level 4 has at least 4 characters can never fire.
   */
  function CheckRequest(length: int, complexity: int): (v: Verdict)
    ensures v == Generate <==> 4 <= length <= 128 && 1 <= complexity <= 4
    ensures v != FullNeedsFour
    ensures v == TooShort <==> length < 4
    ensures v == TooLong <==> length > 128
    ensures v == InvalidComplexity <==> 4 <= length <= 128 && !(1 <= complexity <= 4)
  {
    if length < 4 then TooShort
    else if length > 128 then TooLong
    else if complexity !in {1, 2, 3, 4} then InvalidComplexity
    else if complexity == 4 && length < 4 then FullNeedsFour
    else Generate
  }

  /** An accepted request yields a password of exactly the requested length. */
  lemma AcceptedLengthIsExact(length: int, complexity: int)
    requires CheckRequest(length, complexity) == Generate
    ensures PasswordLength(length, complexity) == length
  {
  }
}
