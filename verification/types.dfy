/** Basic constants and character classes of the front end (types.hpp), together
    with the C library character predicates the lexer and preprocessor rely on.
    Characters are classified as the `int` that `fgetc` returns, so that the end
    of input can be represented as `EOF` (-1), exactly as the original code sees it. */
module Types {

  /** Number of pseudo-registers of the SILENT architecture. */
  const ArchRegNum: nat := 16

  /** Largest value of a signed 64-bit integer (LLONG_MAX). */
  const I64Max: int := 0x7fff_ffff_ffff_ffff

  /** Value `fgetc` returns at the end of the input. */
  const EOF: int := -1

  /** `std::ext::isprintable`: the visible characters plus space. */
  predicate IsPrintable(c: int) { c > 31 && c < 127 }

  /** `std::ext::ischar`: the visible characters, space excluded. */
  predicate IsChar(c: int) { c > 32 && c < 127 }

  /** `isspace` in the C locale: space, \t, \n, \v, \f, \r. */
  predicate IsSpace(c: int) { c == 32 || (9 <= c <= 13) }

  predicate IsDigit(c: int) { '0' as int <= c <= '9' as int }

  predicate IsUpper(c: int) { 'A' as int <= c <= 'Z' as int }

  predicate IsLower(c: int) { 'a' as int <= c <= 'z' as int }

  predicate IsAlpha(c: int) { IsUpper(c) || IsLower(c) }

  predicate IsAlnum(c: int) { IsAlpha(c) || IsDigit(c) }

  /** `tolower` in the C locale; EOF and non-letters are returned unchanged. */
  function ToLower(c: int): (r: int)
    ensures IsLower(r) <==> IsAlpha(c)
    ensures IsDigit(r) <==> IsDigit(c)
    ensures !IsUpper(c) ==> r == c
  {
    if IsUpper(c) then c + 32 else c
  }

  /** The character `fgetc` would return next: the first character, or EOF. */
  function Peek(s: string): (c: int)
    ensures c == EOF <==> |s| == 0
  {
    if |s| == 0 then EOF else s[0] as int
  }

  /** The input after `fgetc` has read one character; reading EOF consumes nothing. */
  function Advance(s: string): (r: string)
    ensures |s| > 0 ==> r == s[1..]
    ensures |s| == 0 ==> r == s
  {
    if |s| == 0 then s else s[1..]
  }

  /** Every `ischar` character is printable, space is printable but not a
      `ischar` character, and EOF is neither. */
  lemma CharClasses(c: int)
    ensures IsChar(c) ==> IsPrintable(c)
    ensures IsPrintable(c) <==> IsChar(c) || c == ' ' as int
    ensures !IsPrintable(EOF) && !IsChar(EOF)
    ensures IsSpace(' ' as int) && IsPrintable(' ' as int) && !IsChar(' ' as int)
  {
  }

  /** `rest` is what is left of `s` after dropping some of its first elements. */
  ghost predicate IsSuffix<T>(rest: seq<T>, s: seq<T>)
    decreases |s|
  {
    rest == s || (|s| > 0 && IsSuffix(rest, s[1..]))
  }

  lemma {:induction false} SuffixLength<T>(rest: seq<T>, s: seq<T>)
    requires IsSuffix(rest, s)
    ensures |rest| <= |s| && rest == s[|s| - |rest|..]
    decreases |s|
  {
    if rest != s {
      SuffixLength(rest, s[1..]);
      assert s[1..][|s| - 1 - |rest|..] == s[|s| - |rest|..];
    }
  }

  /** Concatenation regroups; stated once so that proofs in crowded contexts
      need not rediscover it. */
  lemma AppendAssoc<T>(a: seq<T>, b: seq<T>, c: seq<T>)
    ensures (a + b) + c == a + (b + c)
  {
  }

  /** Four pieces joined from the left, regrouped after the first. */
  lemma Append4<T>(a: seq<T>, b: seq<T>, c: seq<T>, d: seq<T>)
    ensures a + b + c + d == a + (b + c + d)
  {
  }
}
