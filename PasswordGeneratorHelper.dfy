/**
 * The password generator: a pool of eligible characters built from four
 * fixed alphabets minus an exclusion list, then a password assembled by
 * inserting randomly picked pool characters at random positions of a
 * growing list.
 */
module PasswordGeneratorHelper {
  import opened Randomness

  /** Non-alphanumeric characters; the opening brackets and parenthesis, `/`, `\`, backquote and `|` are left out. */
  const NonAlphanumeric: string := "!\"#$%&')*+,-.:;=>?@]^_}~"

  /** All lower case ASCII letters. */
  const LowercaseLetters: string := "abcdefghijklmnopqrstuvwxyz"

  /** All upper case ASCII letters. */
  const UppercaseLetters: string := "ABCDEFGHIJKLMNOPQRSTUVWXYZ"

  /** All decimal digits. */
  const Digits: string := "0123456789"

  /** The characters deliberately kept out of the special alphabet. */
  const UnsafeCharacters: string := "(/<[`{|\\"

  /** None of the deliberately omitted characters is in the special alphabet. */
  lemma SpecialAlphabetOmitsUnsafe()
    ensures forall i :: 0 <= i < |UnsafeCharacters| ==> UnsafeCharacters[i] !in NonAlphanumeric
    ensures |NonAlphanumeric| == 24
  {
  }

  // ---------------------------------------------------------------------
  // Filtering an alphabet against the exclusion list
  // ---------------------------------------------------------------------

  /** The characters of `input` that are not excluded, in their original order. */
  function Filtered(input: string, excluded: seq<char>): string
    decreases |input|
  {
    if input == [] then []
    else
      var last := input[|input| - 1];
      Filtered(input[..|input| - 1], excluded) + (if last in excluded then [] else [last])
  }

  /** `sub` is obtained from `s` by deleting some of its elements. */
  predicate IsSubsequence<T(==)>(sub: seq<T>, s: seq<T>)
    decreases |s|
  {
    if sub == [] then true
    else if s == [] then false
    else
      (sub[|sub| - 1] == s[|s| - 1] && IsSubsequence(sub[..|sub| - 1], s[..|s| - 1]))
      || IsSubsequence(sub, s[..|s| - 1])
  }

  /** Filtering keeps the original order: the result is a subsequence of the input. */
  lemma {:induction false} FilteredIsSubsequence(input: string, excluded: seq<char>)
    ensures IsSubsequence(Filtered(input, excluded), input)
    decreases |input|
  {
    if input != [] {
      var init, last := input[..|input| - 1], input[|input| - 1];
      var f := Filtered(init, excluded);
      FilteredIsSubsequence(init, excluded);
      if last !in excluded {
        var r := f + [last];
        assert Filtered(input, excluded) == r;
        assert r[..|r| - 1] == f;
      } else {
        assert Filtered(input, excluded) == f;
      }
    }
  }

  /** Filtering distributes over concatenation. */
  lemma {:induction false} FilteredAppend(a: string, b: string, excluded: seq<char>)
    ensures Filtered(a + b, excluded) == Filtered(a, excluded) + Filtered(b, excluded)
    decreases |b|
  {
    if b != [] {
      var init := b[..|b| - 1];
      FilteredAppend(a, init, excluded);
      assert (a + b)[..|a + b| - 1] == a + init;
    } else {
      assert a + b == a;
    }
  }

  /** A character occurs in the result exactly as often as in the input, unless it is excluded. */
  lemma {:induction false} FilteredCounts(input: string, excluded: seq<char>, c: char)
    ensures multiset(Filtered(input, excluded))[c] == if c in excluded then 0 else multiset(input)[c]
    decreases |input|
  {
    if input != [] {
      var init, last := input[..|input| - 1], input[|input| - 1];
      FilteredCounts(init, excluded, c);
      assert input == init + [last];
    }
  }

  /** A character is in the result if and only if it is in the input and not excluded. */
  lemma FilteredMembers(input: string, excluded: seq<char>, c: char)
    ensures c in Filtered(input, excluded) <==> c in input && c !in excluded
  {
    FilteredCounts(input, excluded, c);
    assert c in Filtered(input, excluded) <==> multiset(Filtered(input, excluded))[c] > 0;
    assert c in input <==> multiset(input)[c] > 0;
  }

  /** Filtering an input none of whose characters is excluded gives the input back. */
  lemma {:induction false} FilteredNothingExcluded(input: string, excluded: seq<char>)
    requires forall i :: 0 <= i < |input| ==> input[i] !in excluded
    ensures Filtered(input, excluded) == input
    decreases |input|
  {
    if input != [] {
      var init := input[..|input| - 1];
      FilteredNothingExcluded(init, excluded);
      assert input == init + [input[|input| - 1]];
    }
  }

  /**
   * The characters of `input` that are not in `excludedCharacters`; the
   * input itself when the exclusion list is empty (or null in the source).
   */
  method RemoveExcludedCharacters(input: string, excludedCharacters: seq<char>) returns (r: string)
    ensures r == Filtered(input, excludedCharacters)
    ensures |excludedCharacters| == 0 ==> r == input
  {
    if |excludedCharacters| == 0 {
      FilteredNothingExcluded(input, excludedCharacters);
      return input;
    }
    var stringBuilder: string := [];
    for i := 0 to |input|
      invariant stringBuilder == Filtered(input[..i], excludedCharacters)
    {
      assert input[..i + 1][..i] == input[..i];
      if input[i] !in excludedCharacters {
        stringBuilder := stringBuilder + [input[i]];
      }
    }
    assert input[..|input|] == input;
    r := stringBuilder;
  }

  // ---------------------------------------------------------------------
  // The pool of eligible characters
  // ---------------------------------------------------------------------

  /** The selected alphabets, each filtered, in the order upper, lower, digits, special. */
  function Pool(hasUppercase: bool, hasLowercase: bool, hasNumbers: bool, hasSpecialCharacters: bool,
                excluded: seq<char>): string
  {
    Part(hasUppercase, UppercaseLetters, excluded) + Part(hasLowercase, LowercaseLetters, excluded)
    + Part(hasNumbers, Digits, excluded) + Part(hasSpecialCharacters, NonAlphanumeric, excluded)
  }

  /** What one alphabet contributes to the pool. */
  function Part(selected: bool, alphabet: string, excluded: seq<char>): string
  {
    if selected then Filtered(alphabet, excluded) else []
  }

  /**
   * The pool: each selected alphabet, with the excluded characters removed,
   * appended in the order upper case, lower case, digits, special.
   */
  method CombineCharacterSets(hasUppercase: bool, hasLowercase: bool, hasNumbers: bool, hasSpecialCharacters: bool,
                              excludedCharacters: seq<char>) returns (randomChars: string)
    ensures randomChars == Pool(hasUppercase, hasLowercase, hasNumbers, hasSpecialCharacters, excludedCharacters)
  {
    var randomCharsBuilder: string := [];

    if hasUppercase {
      var s := RemoveExcludedCharacters(UppercaseLetters, excludedCharacters);
      randomCharsBuilder := randomCharsBuilder + s;
    }
    assert randomCharsBuilder == Part(hasUppercase, UppercaseLetters, excludedCharacters);
    if hasLowercase {
      var s := RemoveExcludedCharacters(LowercaseLetters, excludedCharacters);
      randomCharsBuilder := randomCharsBuilder + s;
    }
    assert randomCharsBuilder == Part(hasUppercase, UppercaseLetters, excludedCharacters)
                                  + Part(hasLowercase, LowercaseLetters, excludedCharacters);
    if hasNumbers {
      var s := RemoveExcludedCharacters(Digits, excludedCharacters);
      randomCharsBuilder := randomCharsBuilder + s;
    }
    assert randomCharsBuilder == Part(hasUppercase, UppercaseLetters, excludedCharacters)
                                  + Part(hasLowercase, LowercaseLetters, excludedCharacters)
                                  + Part(hasNumbers, Digits, excludedCharacters);
    if hasSpecialCharacters {
      var s := RemoveExcludedCharacters(NonAlphanumeric, excludedCharacters);
      randomCharsBuilder := randomCharsBuilder + s;
    }
    assert randomCharsBuilder == Pool(hasUppercase, hasLowercase, hasNumbers, hasSpecialCharacters, excludedCharacters);
    randomChars := randomCharsBuilder;
  }

  /** `c` belongs to one of the alphabets whose flag is set. */
  predicate Selected(c: char, hasUppercase: bool, hasLowercase: bool, hasNumbers: bool, hasSpecialCharacters: bool)
  {
    (hasUppercase && c in UppercaseLetters)
    || (hasLowercase && c in LowercaseLetters)
    || (hasNumbers && c in Digits)
    || (hasSpecialCharacters && c in NonAlphanumeric)
  }

  /** The pool holds exactly the selected characters that are not excluded. */
  lemma PoolMembers(hasUppercase: bool, hasLowercase: bool, hasNumbers: bool, hasSpecialCharacters: bool,
                    excluded: seq<char>, c: char)
    ensures c in Pool(hasUppercase, hasLowercase, hasNumbers, hasSpecialCharacters, excluded)
            <==> Selected(c, hasUppercase, hasLowercase, hasNumbers, hasSpecialCharacters) && c !in excluded
  {
    FilteredMembers(UppercaseLetters, excluded, c);
    FilteredMembers(LowercaseLetters, excluded, c);
    FilteredMembers(Digits, excluded, c);
    FilteredMembers(NonAlphanumeric, excluded, c);
  }

  /** With no exclusions and every flag set, the pool is the four alphabets back to back: 86 characters. */
  lemma FullPool()
    ensures Pool(true, true, true, true, []) == UppercaseLetters + LowercaseLetters + Digits + NonAlphanumeric
    ensures |Pool(true, true, true, true, [])| == 86
  {
    FilteredNothingExcluded(UppercaseLetters, []);
    FilteredNothingExcluded(LowercaseLetters, []);
    FilteredNothingExcluded(Digits, []);
    FilteredNothingExcluded(NonAlphanumeric, []);
  }

  /** Excluding every character of every selected alphabet leaves the pool empty. */
  lemma PoolEmptyWhenAllExcluded(hasUppercase: bool, hasLowercase: bool, hasNumbers: bool, hasSpecialCharacters: bool,
                                 excluded: seq<char>)
    requires forall c :: Selected(c, hasUppercase, hasLowercase, hasNumbers, hasSpecialCharacters) ==> c in excluded
    ensures Pool(hasUppercase, hasLowercase, hasNumbers, hasSpecialCharacters, excluded) == []
  {
    var pool := Pool(hasUppercase, hasLowercase, hasNumbers, hasSpecialCharacters, excluded);
    if pool != [] {
      PoolMembers(hasUppercase, hasLowercase, hasNumbers, hasSpecialCharacters, excluded, pool[0]);
      assert false;
    }
  }

  // ---------------------------------------------------------------------
  // The randomized insertion build
  // ---------------------------------------------------------------------

  /** `s` with `c` inserted at index `p`, the later elements shifted right (List.Insert). */
  function Insert(s: string, p: nat, c: char): string
    requires p <= |s|
  {
    s[..p] + [c] + s[p..]
  }

  /** An insertion grows the list by one, puts `c` at `p` and keeps the other elements in order. */
  lemma InsertShape(s: string, p: nat, c: char)
    requires p <= |s|
    ensures |Insert(s, p, c)| == |s| + 1
    ensures Insert(s, p, c)[p] == c
    ensures Insert(s, p, c)[..p] + Insert(s, p, c)[p + 1..] == s
    ensures multiset(Insert(s, p, c)) == multiset(s) + multiset{c}
  {
    var r := Insert(s, p, c);
    assert r[..p] == s[..p];
    assert r[p + 1..] == s[p..];
    assert s == s[..p] + s[p..];
  }

  /** The multiset part of InsertShape on its own, for proofs that need only the contents. */
  lemma InsertMultiset(s: string, p: nat, c: char)
    requires p <= |s|
    ensures multiset(Insert(s, p, c)) == multiset(s) + multiset{c}
  {
    InsertShape(s, p, c);
  }

  /** Inserting at the end appends. */
  lemma InsertAtEnd(s: string, c: char)
    ensures Insert(s, |s|, c) == s + [c]
  {
    assert s[..|s|] == s;
  }

  /** The insertion position of iteration `j`, when the list holds `count` characters: the first draw. */
  function Position(stream: nat -> nat, j: nat, count: nat): (p: nat)
    ensures p <= count
  {
    Draw(stream, 2 * j, 0, count + 1)
  }

  /** The pool index of iteration `j`: the second draw, taken after the position. */
  function PickIndex(stream: nat -> nat, j: nat, poolLength: nat): (i: nat)
    requires poolLength > 0
    ensures i < poolLength
  {
    Draw(stream, 2 * j + 1, 0, poolLength)
  }

  /** The characters picked by the first `n` iterations, in the order they were picked. */
  function Picks(pool: string, n: nat, stream: nat -> nat): (r: string)
    requires |pool| > 0
  {
    if n == 0 then [] else Picks(pool, n - 1, stream) + [pool[PickIndex(stream, n - 1, |pool|)]]
  }

  /** The list after `n` iterations of the insertion loop over a non-empty pool. */
  function Build(pool: string, n: nat, stream: nat -> nat): (r: string)
    requires |pool| > 0
    ensures |r| == n
  {
    if n == 0 then []
    else
      var prev := Build(pool, n - 1, stream);
      Insert(prev, Position(stream, n - 1, |prev|), pool[PickIndex(stream, n - 1, |pool|)])
  }

  /** Every character of the list is a pool character. */
  lemma {:induction false} BuildCharacters(pool: string, n: nat, stream: nat -> nat)
    requires |pool| > 0
    ensures forall i :: 0 <= i < n ==> Build(pool, n, stream)[i] in pool
  {
    if n > 0 {
      BuildCharacters(pool, n - 1, stream);
      var prev := Build(pool, n - 1, stream);
      var p := Position(stream, n - 1, |prev|);
      var r := Build(pool, n, stream);
      InsertShape(prev, p, pool[PickIndex(stream, n - 1, |pool|)]);
      forall i | 0 <= i < n
        ensures r[i] in pool
      {
        if i < p {
          assert r[i] == prev[i];
        } else if i > p {
          assert r[i] == r[p + 1..][i - p - 1] == prev[p..][i - p - 1];
        }
      }
    }
  }

  /** Iteration n inserts the n-th pick at the n-th position into the list of n characters. */
  lemma BuildUnfold(pool: string, n: nat, stream: nat -> nat)
    requires |pool| > 0
    ensures Build(pool, n + 1, stream)
            == Insert(Build(pool, n, stream), Position(stream, n, n), pool[PickIndex(stream, n, |pool|)])
  {
  }

  /** One more iteration, with the draws the random source gives for it, extends the build by one step. */
  lemma BuildNext(pool: string, j: nat, stream: nat -> nat, prev: string, position: int, index: int)
    requires |pool| > 0 && prev == Build(pool, j, stream)
    requires position == Draw(stream, 2 * j, 0, |prev| + 1)
    requires index == Draw(stream, 2 * j + 1, 0, |pool|)
    ensures 0 <= position <= |prev| && 0 <= index < |pool|
    ensures Insert(prev, position, pool[index]) == Build(pool, j + 1, stream)
  {
    BuildUnfold(pool, j, stream);
  }

  /** Iteration n places its pick at its drawn position and keeps every earlier character in order. */
  lemma BuildStep(pool: string, n: nat, stream: nat -> nat)
    requires |pool| > 0 && n > 0
    ensures var p := Position(stream, n - 1, n - 1);
            Build(pool, n, stream)[p] == pool[PickIndex(stream, n - 1, |pool|)]
            && Build(pool, n, stream)[..p] + Build(pool, n, stream)[p + 1..] == Build(pool, n - 1, stream)
  {
    var prev := Build(pool, n - 1, stream);
    InsertShape(prev, Position(stream, n - 1, |prev|), pool[PickIndex(stream, n - 1, |pool|)]);
  }

  /** The password holds exactly the picked characters: it is a permutation of the picks. */
  lemma {:induction false} BuildIsPermutationOfPicks(pool: string, n: nat, stream: nat -> nat)
    requires |pool| > 0
    ensures multiset(Build(pool, n, stream)) == multiset(Picks(pool, n, stream))
  {
    if n > 0 {
      var j := n - 1;
      BuildIsPermutationOfPicks(pool, j, stream);
      var prev := Build(pool, j, stream);
      var pick := pool[PickIndex(stream, j, |pool|)];
      BuildUnfold(pool, j, stream);
      InsertMultiset(prev, Position(stream, j, j), pick);
      assert Picks(pool, n, stream) == Picks(pool, j, stream) + [pick];
      assert multiset(Picks(pool, n, stream)) == multiset(Picks(pool, j, stream)) + multiset{pick};
    } else {
      assert Build(pool, n, stream) == [] && Picks(pool, n, stream) == [];
    }
  }

  /** The index of the first occurrence of `c` in `s`. */
  function IndexOf(s: string, c: char): (i: nat)
    requires c in s
    ensures i < |s| && s[i] == c
    ensures forall k :: 0 <= k < i ==> s[k] != c
  {
    if s[0] == c then 0 else 1 + IndexOf(s[1..], c)
  }

  lemma SmallRemainder(a: nat, n: nat)
    requires a < n
    ensures a % n == a
  {
  }

  /** Raw draw k of a stream under which iteration j appends `target[j]` at the end of the list. */
  function AppendingDraw(pool: string, target: string, k: nat): nat
    requires forall i :: 0 <= i < |target| ==> target[i] in pool
  {
    if k % 2 == 0 then k / 2
    else if k / 2 < |target| then IndexOf(pool, target[k / 2])
    else 0
  }

  function AppendingStream(pool: string, target: string): nat -> nat
    requires forall i :: 0 <= i < |target| ==> target[i] in pool
  {
    (k: nat) => AppendingDraw(pool, target, k)
  }

  /** Under the appending stream, iteration j draws position j and the index of `target[j]`. */
  lemma AppendingStreamDraws(pool: string, target: string, j: nat)
    requires |pool| > 0 && j < |target|
    requires forall i :: 0 <= i < |target| ==> target[i] in pool
    ensures Position(AppendingStream(pool, target), j, j) == j
    ensures pool[PickIndex(AppendingStream(pool, target), j, |pool|)] == target[j]
  {
    var stream := AppendingStream(pool, target);
    assert stream(2 * j) == j by {
      assert (2 * j) % 2 == 0 && (2 * j) / 2 == j;
    }
    SmallRemainder(j, j + 1);
    var index := IndexOf(pool, target[j]);
    assert stream(2 * j + 1) == index by {
      assert (2 * j + 1) % 2 == 1 && (2 * j + 1) / 2 == j;
    }
    SmallRemainder(index, |pool|);
  }

  lemma {:induction false} AppendingStreamBuildsPrefix(pool: string, target: string, m: nat)
    requires |pool| > 0 && m <= |target|
    requires forall i :: 0 <= i < |target| ==> target[i] in pool
    ensures Build(pool, m, AppendingStream(pool, target)) == target[..m]
  {
    if m > 0 {
      var j := m - 1;
      var stream := AppendingStream(pool, target);
      AppendingStreamBuildsPrefix(pool, target, j);
      AppendingStreamDraws(pool, target, j);
      var prev := Build(pool, j, stream);
      BuildUnfold(pool, j, stream);
      InsertAtEnd(prev, target[j]);
      assert target[..m] == target[..j] + [target[j]];
    }
  }

  /** Every string over the pool is the outcome of some behaviour of the random source. */
  lemma EveryPasswordIsReachable(pool: string, target: string)
    requires |pool| > 0
    requires forall i :: 0 <= i < |target| ==> target[i] in pool
    ensures exists stream: nat -> nat :: Build(pool, |target|, stream) == target
  {
    AppendingStreamBuildsPrefix(pool, target, |target|);
    assert target[..|target|] == target;
  }

  // ---------------------------------------------------------------------
  // The whole operation
  // ---------------------------------------------------------------------

  /** The password the generator returns for these inputs and this behaviour of the random source. */
  function Generated(length: int, hasUppercase: bool, hasLowercase: bool, hasNumbers: bool,
                     hasSpecialCharacters: bool, excluded: seq<char>, stream: nat -> nat): string
  {
    var pool := Pool(hasUppercase, hasLowercase, hasNumbers, hasSpecialCharacters, excluded);
    if length <= 0 || |pool| == 0 then [] else Build(pool, length, stream)
  }

  /** The password is empty exactly when the length is not positive or the pool is empty; otherwise it has `length` characters. */
  lemma GeneratedLength(length: int, hasUppercase: bool, hasLowercase: bool, hasNumbers: bool,
                        hasSpecialCharacters: bool, excluded: seq<char>, stream: nat -> nat)
    ensures var pool := Pool(hasUppercase, hasLowercase, hasNumbers, hasSpecialCharacters, excluded);
            |Generated(length, hasUppercase, hasLowercase, hasNumbers, hasSpecialCharacters, excluded, stream)|
            == if length > 0 && |pool| > 0 then length else 0
  {
  }

  /** Every character of the password belongs to a selected alphabet and is not excluded. */
  lemma GeneratedCharacters(length: int, hasUppercase: bool, hasLowercase: bool, hasNumbers: bool,
                            hasSpecialCharacters: bool, excluded: seq<char>, stream: nat -> nat)
    ensures var r := Generated(length, hasUppercase, hasLowercase, hasNumbers, hasSpecialCharacters, excluded, stream);
            forall i :: 0 <= i < |r| ==>
              Selected(r[i], hasUppercase, hasLowercase, hasNumbers, hasSpecialCharacters) && r[i] !in excluded
  {
    var r := Generated(length, hasUppercase, hasLowercase, hasNumbers, hasSpecialCharacters, excluded, stream);
    var pool := Pool(hasUppercase, hasLowercase, hasNumbers, hasSpecialCharacters, excluded);
    if length > 0 && |pool| > 0 {
      BuildCharacters(pool, length, stream);
    }
    forall i | 0 <= i < |r|
      ensures Selected(r[i], hasUppercase, hasLowercase, hasNumbers, hasSpecialCharacters) && r[i] !in excluded
    {
      PoolMembers(hasUppercase, hasLowercase, hasNumbers, hasSpecialCharacters, excluded, r[i]);
    }
  }

  /** Excluding every character of every selected alphabet gives the empty password, whatever the length. */
  lemma GeneratedAllExcluded(length: int, hasUppercase: bool, hasLowercase: bool, hasNumbers: bool,
                             hasSpecialCharacters: bool, excluded: seq<char>, stream: nat -> nat)
    requires forall c :: Selected(c, hasUppercase, hasLowercase, hasNumbers, hasSpecialCharacters) ==> c in excluded
    ensures Generated(length, hasUppercase, hasLowercase, hasNumbers, hasSpecialCharacters, excluded, stream) == []
  {
    PoolEmptyWhenAllExcluded(hasUppercase, hasLowercase, hasNumbers, hasSpecialCharacters, excluded);
  }

  /** With no alphabet selected the password is empty, whatever the length. */
  lemma GeneratedNothingSelected(length: int, excluded: seq<char>, stream: nat -> nat)
    ensures Generated(length, false, false, false, false, excluded, stream) == []
  {
  }

  /**
   * One iteration of the insertion loop: draw a position in [0, count], then
   * a pool index, and insert that pool character at that position.
   */
  method InsertRandomCharacter(rand: CryptoRandom, randomChars: string, newPasswordCharacters: string,
                               ghost j: nat)
    returns (r: string)
    requires |randomChars| > 0 && rand.calls == 2 * j
    requires newPasswordCharacters == Build(randomChars, j, rand.stream)
    modifies rand
    ensures r == Build(randomChars, j + 1, rand.stream)
    ensures rand.calls == 2 * (j + 1)
  {
    var position := rand.Next(0, |newPasswordCharacters| + 1);
    var index := rand.Next(0, |randomChars|);
    BuildNext(randomChars, j, rand.stream, newPasswordCharacters, position, index);
    r := Insert(newPasswordCharacters, position, randomChars[index]);
  }

  /**
   * Generates a password of `length` characters from the selected alphabets
   * minus the excluded characters, drawing from the random source with
   * entropy stream `entropy`.
   */
  method GeneratePassword(length: int, hasUppercase: bool, hasLowercase: bool, hasNumbers: bool,
                          hasSpecialCharacters: bool, excludedCharacters: seq<char>, entropy: nat -> nat)
    returns (password: string)
    ensures password == Generated(length, hasUppercase, hasLowercase, hasNumbers, hasSpecialCharacters,
                                  excludedCharacters, entropy)
    ensures length <= 0 ==> password == []
    ensures |password| == if length > 0 && |Pool(hasUppercase, hasLowercase, hasNumbers, hasSpecialCharacters,
                                                 excludedCharacters)| > 0 then length else 0
    ensures forall i :: 0 <= i < |password| ==>
              Selected(password[i], hasUppercase, hasLowercase, hasNumbers, hasSpecialCharacters)
              && password[i] !in excludedCharacters
  {
    if length <= 0 {
      return [];
    }

    var rand := new CryptoRandom(entropy);
    var newPasswordCharacters: string := [];
    var randomChars := CombineCharacterSets(hasUppercase, hasLowercase, hasNumbers, hasSpecialCharacters,
                                            excludedCharacters);

    if |randomChars| != 0 {
      for j := 0 to length
        invariant rand.stream == entropy && rand.calls == 2 * j
        invariant newPasswordCharacters == Build(randomChars, j, entropy)
      {
        newPasswordCharacters := InsertRandomCharacter(rand, randomChars, newPasswordCharacters, j);
      }
    }

    password := newPasswordCharacters;
    assert password == Generated(length, hasUppercase, hasLowercase, hasNumbers, hasSpecialCharacters,
                                 excludedCharacters, entropy);
    GeneratedLength(length, hasUppercase, hasLowercase, hasNumbers, hasSpecialCharacters,
                    excludedCharacters, entropy);
    GeneratedCharacters(length, hasUppercase, hasLowercase, hasNumbers, hasSpecialCharacters,
                        excludedCharacters, entropy);
  }
}
