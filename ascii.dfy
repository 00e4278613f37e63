/**
 * The ASCII byte operations the flag readers use: `u8::to_ascii_lowercase` (through
 * `make_ascii_lowercase`), `u8::is_ascii_whitespace` and `<[u8]>::trim_ascii`.
 */
module Ascii {
  import opened Primitives

  /** An upper-case ASCII letter, `A` to `Z`. */
  predicate IsUpper(b: byte) {
    0x41 <= b <= 0x5A
  }

  /** A lower-case ASCII letter, `a` to `z`. */
  predicate IsLower(b: byte) {
    0x61 <= b <= 0x7A
  }

  /** `u8::to_ascii_lowercase`: upper-case letters become lower-case, every other byte stays. */
  function ToLower(b: byte): (r: byte)
    ensures !IsUpper(r)
    ensures !IsUpper(b) ==> r == b
    ensures IsUpper(b) ==> IsLower(r) && r - 0x20 == b
  {
    if IsUpper(b) then b + 0x20 else b
  }

  /** `b` is the letter `lower` in either case. */
  predicate SameLetter(b: byte, lower: byte) {
    b == lower || b == lower - 0x20
  }

  /** Lower-casing turns a byte into a given lower-case letter exactly when the byte is that letter in either case. */
  lemma ToLowerIsLetter(b: byte, lower: byte)
    requires IsLower(lower)
    ensures ToLower(b) == lower <==> SameLetter(b, lower)
  {
  }

  /** `make_ascii_lowercase` on a byte string. */
  function LowerBytes(s: seq<byte>): (r: seq<byte>)
    ensures |r| == |s|
    ensures forall k | 0 <= k < |s| :: r[k] == ToLower(s[k])
  {
    seq(|s|, k requires 0 <= k < |s| => ToLower(s[k]))
  }

  /** `s` spells the lower-case `word`, in any mix of cases. */
  ghost predicate Spells(s: seq<byte>, word: seq<byte>) {
    |s| == |word| && forall k | 0 <= k < |s| :: SameLetter(s[k], word[k])
  }

  /** The lower-cased string equals a lower-case word exactly when the string spells that word. */
  lemma LowerBytesEqualsIff(s: seq<byte>, word: seq<byte>)
    requires forall k | 0 <= k < |word| :: IsLower(word[k])
    ensures LowerBytes(s) == word <==> Spells(s, word)
  {
    if Spells(s, word) {
      forall k | 0 <= k < |s|
        ensures LowerBytes(s)[k] == word[k]
      {
        ToLowerIsLetter(s[k], word[k]);
      }
    }
    if LowerBytes(s) == word {
      forall k | 0 <= k < |s|
        ensures SameLetter(s[k], word[k])
      {
        ToLowerIsLetter(s[k], word[k]);
      }
    }
  }

  /** `u8::is_ascii_whitespace`: tab, line feed, form feed, carriage return and space (not vertical tab). */
  predicate IsSpace(b: byte) {
    b == 0x09 || b == 0x0A || b == 0x0C || b == 0x0D || b == 0x20
  }

  /** `trim_ascii_start` */
  function TrimStart(s: seq<byte>): (r: seq<byte>)
    ensures |r| <= |s| && r == s[|s| - |r|..]
    ensures r != [] ==> !IsSpace(r[0])
    ensures forall k | 0 <= k < |s| - |r| :: IsSpace(s[k])
  {
    if s != [] && IsSpace(s[0]) then TrimStart(s[1..]) else s
  }

  /** `trim_ascii_end` */
  function TrimEnd(s: seq<byte>): (r: seq<byte>)
    ensures |r| <= |s| && r == s[..|r|]
    ensures r != [] ==> !IsSpace(r[|r| - 1])
    ensures forall k | |r| <= k < |s| :: IsSpace(s[k])
  {
    if s != [] && IsSpace(s[|s| - 1]) then TrimEnd(s[..|s| - 1]) else s
  }

  /** `trim_ascii`: the bytes left once leading and trailing ASCII whitespace is removed. */
  function Trim(s: seq<byte>): (r: seq<byte>)
    ensures |r| <= |s|
    ensures r != [] ==> !IsSpace(r[0]) && !IsSpace(r[|r| - 1])
    ensures r == [] <==> forall k | 0 <= k < |s| :: IsSpace(s[k])
  {
    TrimEnd(TrimStart(s))
  }

  /** The whitespace bytes are no letters, so lower-casing first or trimming first gives the same string. */
  lemma {:induction false} TrimStartLower(s: seq<byte>)
    ensures TrimStart(LowerBytes(s)) == LowerBytes(TrimStart(s))
  {
    var lower := LowerBytes(s);
    if s == [] {
      assert lower == [];
    } else if IsSpace(s[0]) {
      assert lower[0] == s[0];
      assert lower[1..] == LowerBytes(s[1..]);
      assert TrimStart(s) == TrimStart(s[1..]);
      assert TrimStart(lower) == TrimStart(lower[1..]);
      TrimStartLower(s[1..]);
    } else {
      assert !IsSpace(lower[0]);
      assert TrimStart(s) == s;
      assert TrimStart(lower) == lower;
    }
  }

  lemma {:induction false} TrimEndLower(s: seq<byte>)
    ensures TrimEnd(LowerBytes(s)) == LowerBytes(TrimEnd(s))
  {
    if s != [] {
      var lower := LowerBytes(s);
      assert lower[|s| - 1] == ToLower(s[|s| - 1]);
      if IsSpace(s[|s| - 1]) {
        assert lower[..|s| - 1] == LowerBytes(s[..|s| - 1]);
        TrimEndLower(s[..|s| - 1]);
        assert TrimEnd(lower) == TrimEnd(lower[..|s| - 1]);
      } else {
        assert !IsSpace(lower[|s| - 1]);
        assert TrimEnd(lower) == lower;
      }
    }
  }

  lemma TrimLower(s: seq<byte>)
    ensures Trim(LowerBytes(s)) == LowerBytes(Trim(s))
  {
    TrimStartLower(s);
    TrimEndLower(TrimStart(s));
  }
}
