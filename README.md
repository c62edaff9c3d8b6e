# Password generator helper, modelled in Dafny

This project models `PasswordGeneratorHelper` of DevToys.Tools: the static
helper that builds a random password from up to four fixed alphabets
(upper case letters, lower case letters, digits and a 24-character set of
non-alphanumeric characters), minus a caller-supplied list of excluded
characters.

The helper works in two stages, and the model keeps both:

1. **Pool assembly.** `RemoveExcludedCharacters` filters one alphabet
   against the exclusion list with a loop that appends the kept characters
   to a builder. It returns the alphabet unchanged when the list is empty.
   `GeneratePassword` appends the filtered alphabets whose flags are set, in
   the fixed order upper case, lower case, digits, special.
2. **Randomized insertion build.** For each of `length` iterations the helper
   draws an insertion position in `[0, count]` and then a pool index in
   `[0, pool length)`. It inserts that pool character at that position in a
   growing list. C# evaluates the arguments of `Insert` left to right, so the
   position is drawn first.

Files:

- `CryptoRandom.dfy` (module `Randomness`): the cryptographic random source,
  which is foreign code. It is represented by a class over an arbitrary
  entropy stream `nat -> nat`. The k-th call of `Next(lo, hi)` answers
  `lo + stream(k) % (hi - lo)`. Every finite sequence of in-range answers
  comes from some stream (`EveryAnswerSequenceIsReachable`), so each property
  proved for all streams holds for every behaviour of the source.
- `PasswordGeneratorHelper.dfy` (module `PasswordGeneratorHelper`): the
  alphabets, the filter (`Filtered` specifies it, `RemoveExcludedCharacters`
  is the loop), the pool (`Pool` specifies it, `CombineCharacterSets` is the
  sequence of flag checks and appends), and the insertion build (`Build`
  specifies the list after `n` iterations). The body of the `for` loop is the
  method `InsertRandomCharacter`, and `GeneratePassword` runs the loop.
  `Generated` is the whole operation as a function, and `GeneratePassword`
  is proved equal to it.

The exclusion list is a `seq<char>`. A null list and an empty list are both
the empty sequence. The `HashSet` lookup is plain sequence membership.

The special alphabet has 24 characters, so the full pool has 86 (see
`FullPool` and `SpecialAlphabetOmitsUnsafe`). In each iteration the position
is drawn before the pool index.

## Model

| member | source | states |
|---|---|---|
| `Randomness.Draw` | src/DevToys.Tools/Helpers/PasswordGeneratorHelper.cs:80 | each answer of the random source lies in the requested range `[minValue, maxValue)` |
| `Randomness.DrawReachesEveryValue` | src/DevToys.Tools/Helpers/PasswordGeneratorHelper.cs:80 | every value of the range is the answer of some behaviour of the source, so the stream model leaves no answer out |
| `Randomness.EveryAnswerSequenceIsReachable` | src/DevToys.Tools/Helpers/PasswordGeneratorHelper.cs:80 | every finite sequence of answers, each within its requested range, is given by some behaviour of the source, so the stream model leaves no run of answers out |
| `Randomness.CryptoRandom.Next` | src/DevToys.Tools/Helpers/PasswordGeneratorHelper.cs:80 | returns a number in `[minValue, maxValue)`, namely the stream's draw for the current call, and consumes exactly one draw |
| `PasswordGeneratorHelper.SpecialAlphabetOmitsUnsafe` | src/DevToys.Tools/Helpers/PasswordGeneratorHelper.cs:8-16 | none of opening parenthesis, slash, less-than, opening square or curly bracket, backquote, vertical bar and backslash is in the special alphabet, which has 24 characters |
| `PasswordGeneratorHelper.RemoveExcludedCharacters` | src/DevToys.Tools/Helpers/PasswordGeneratorHelper.cs:87-106 | the loop returns exactly the filter of the input, and returns the input itself when the exclusion list is empty |
| `PasswordGeneratorHelper.FilteredNothingExcluded` | src/DevToys.Tools/Helpers/PasswordGeneratorHelper.cs:89-92 | when no character of the input is excluded, in particular when the list is empty, filtering gives the input back |
| `PasswordGeneratorHelper.FilteredIsSubsequence` | src/DevToys.Tools/Helpers/PasswordGeneratorHelper.cs:97-103 | the filtered string keeps the input's order: it is a subsequence of the input |
| `PasswordGeneratorHelper.FilteredCounts` | src/DevToys.Tools/Helpers/PasswordGeneratorHelper.cs:94-105 | each character occurs in the result as often as in the input, or not at all if it is excluded |
| `PasswordGeneratorHelper.FilteredMembers` | src/DevToys.Tools/Helpers/PasswordGeneratorHelper.cs:97-103 | a character is in the result if and only if it is in the input and not excluded |
| `PasswordGeneratorHelper.FilteredAppend` | src/DevToys.Tools/Helpers/PasswordGeneratorHelper.cs:97-103 | filtering works character by character: it distributes over concatenation |
| `PasswordGeneratorHelper.CombineCharacterSets` | src/DevToys.Tools/Helpers/PasswordGeneratorHelper.cs:53-73 | the appends under the four flag checks yield the selected filtered alphabets, in the order upper, lower, digits, special |
| `PasswordGeneratorHelper.PoolMembers` | src/DevToys.Tools/Helpers/PasswordGeneratorHelper.cs:53-73 | a character is in the pool if and only if it belongs to a selected alphabet and is not excluded |
| `PasswordGeneratorHelper.FullPool` | src/DevToys.Tools/Helpers/PasswordGeneratorHelper.cs:16-73 | with every flag set and nothing excluded, the pool is the four alphabets back to back, 86 characters |
| `PasswordGeneratorHelper.PoolEmptyWhenAllExcluded` | src/DevToys.Tools/Helpers/PasswordGeneratorHelper.cs:53-76 | excluding every character of every selected alphabet leaves the pool empty |
| `PasswordGeneratorHelper.InsertShape` | src/DevToys.Tools/Helpers/PasswordGeneratorHelper.cs:80 | `List.Insert` at `p` grows the list by one, puts the character at index `p`, keeps the other characters in their order and adds exactly that character to the contents |
| `PasswordGeneratorHelper.Position` | src/DevToys.Tools/Helpers/PasswordGeneratorHelper.cs:80 | the first draw of an iteration is a valid insertion position, at most the current count |
| `PasswordGeneratorHelper.PickIndex` | src/DevToys.Tools/Helpers/PasswordGeneratorHelper.cs:80 | the second draw of an iteration is a valid pool index |
| `PasswordGeneratorHelper.Build` | src/DevToys.Tools/Helpers/PasswordGeneratorHelper.cs:78-81 | after `n` iterations the list holds exactly `n` characters |
| `PasswordGeneratorHelper.BuildStep` | src/DevToys.Tools/Helpers/PasswordGeneratorHelper.cs:80 | iteration `n` puts its pick at its drawn position, and removing it gives back the list of the previous iteration |
| `PasswordGeneratorHelper.BuildCharacters` | src/DevToys.Tools/Helpers/PasswordGeneratorHelper.cs:78-81 | every character of the list is a pool character |
| `PasswordGeneratorHelper.BuildIsPermutationOfPicks` | src/DevToys.Tools/Helpers/PasswordGeneratorHelper.cs:78-81 | the list has the same multiset of characters as the sequence of picks (`Picks`, listed in draw order); the positions rearrange them |
| `PasswordGeneratorHelper.EveryPasswordIsReachable` | src/DevToys.Tools/Helpers/PasswordGeneratorHelper.cs:78-81 | every string over the pool, of any length, is the outcome of some behaviour of the random source |
| `PasswordGeneratorHelper.InsertRandomCharacter` | src/DevToys.Tools/Helpers/PasswordGeneratorHelper.cs:80 | one loop iteration draws the position, then the index, inserts, and advances the list to the next iteration's value using two draws |
| `PasswordGeneratorHelper.GeneratedLength` | src/DevToys.Tools/Helpers/PasswordGeneratorHelper.cs:41-84 | the password has `length` characters when `length > 0` and the pool is non-empty, and is empty otherwise |
| `PasswordGeneratorHelper.GeneratedCharacters` | src/DevToys.Tools/Helpers/PasswordGeneratorHelper.cs:53-84 | every character of the password belongs to a selected alphabet and is not excluded |
| `PasswordGeneratorHelper.GeneratedAllExcluded` | src/DevToys.Tools/Helpers/PasswordGeneratorHelper.cs:53-84 | excluding every selected character gives the empty password, even for a positive length |
| `PasswordGeneratorHelper.GeneratedNothingSelected` | src/DevToys.Tools/Helpers/PasswordGeneratorHelper.cs:53-84 | with no flag set the password is empty, whatever the length |
| `PasswordGeneratorHelper.GeneratePassword` | src/DevToys.Tools/Helpers/PasswordGeneratorHelper.cs:33-85 | the method returns the specified password; it is empty for a non-positive length, has `length` characters when the pool is non-empty and drawn only from selected, non-excluded characters |

## Left out

- The implementation of `CryptoRandom` is not part of this model. It is replaced by an arbitrary entropy stream, and no property speaks of the distribution of the output.
- Uniformity and the statistical equivalence of the insertion build with direct per-position sampling are probabilistic properties and are not stated.
- `Randomness.CryptoRandom.Next` requires a non-empty range. The helper only asks for `[0, count + 1)` and `[0, pool length)` with a non-empty pool, so a call with an empty range never happens here.
- `StringBuilder`, `List<char>` and string allocation are modelled as local `seq<char>` variables that the methods reassign.
- The pool assembly (lines 47-73) and the loop body (line 80) are separate methods, `CombineCharacterSets` and `InsertRandomCharacter`, rather than inline code of `GeneratePassword`; the order of the steps and the draws is unchanged.
- C# `char` is a UTF-16 code unit while a Dafny `char` is a Unicode scalar value. An exclusion list holding a lone surrogate cannot be written in the model; such a character is in no alphabet, so it changes nothing.
- `length` is a mathematical integer. The list never holds more than `length` characters, so `Count + 1` cannot overflow a 32-bit `int`, and nothing is lost.
- The distinction between a null and an empty exclusion array is dropped; both are the empty sequence.
