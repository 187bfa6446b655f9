/**
 * Shareable match codes: five characters drawn from the upper-case letters
 * and the digits, and the upper-casing the lookups apply to what a client
 * sends. The random source is a parameter: each character is picked by a
 * draw, an index in [0, 36) (`Math.floor(Math.random() * 36)`).
 */
module GameCodes {

  /** The characters a code is drawn from (`chars` in the source). */
  const Alphabet: string := "ABCDEFGHIJKLMNOPQRSTUVWXYZ0123456789"
  const AlphabetSize: nat := 36
  const CodeLength: nat := 5

  predicate IsCodeChar(c: char) {
    'A' <= c <= 'Z' || '0' <= c <= '9'
  }

  /** What a generated code looks like. */
  predicate IsGameCode(s: string) {
    |s| == CodeLength && forall i :: 0 <= i < |s| ==> IsCodeChar(s[i])
  }

  /** Five draws, each a valid index into the alphabet. */
  predicate ValidDraws(draws: seq<nat>) {
    |draws| == CodeLength && forall i :: 0 <= i < |draws| ==> draws[i] < AlphabetSize
  }

  /** The alphabet character at a position, by arithmetic: the 26 letters, then the 10 digits. */
  function AlphabetChar(k: nat): (c: char)
    requires k < AlphabetSize
    ensures IsCodeChar(c)
  {
    if k < 26 then ('A' as int + k) as char else ('0' as int + (k - 26)) as char
  }

  /** The alphabet string is laid out as `AlphabetChar` says. */
  lemma AlphabetLayout()
    ensures |Alphabet| == AlphabetSize
    ensures forall k :: 0 <= k < AlphabetSize ==> Alphabet[k] == AlphabetChar(k)
  {
  }

  /** The code a sequence of draws spells. */
  function CodeOf(draws: seq<nat>): (code: string)
    requires ValidDraws(draws)
    ensures IsGameCode(code)
  {
    seq(CodeLength, i requires 0 <= i < CodeLength => AlphabetChar(draws[i]))
  }

  /** Position of a code character in the alphabet. */
  function IndexOf(c: char): (k: nat)
    requires IsCodeChar(c)
    ensures k < AlphabetSize && AlphabetChar(k) == c
  {
    if 'A' <= c <= 'Z' then (c as int - 'A' as int) else 26 + (c as int - '0' as int)
  }

  /** The draws that spell a code. */
  function DrawsOf(code: string): (draws: seq<nat>)
    requires IsGameCode(code)
    ensures ValidDraws(draws)
  {
    seq(CodeLength, i requires 0 <= i < CodeLength => IndexOf(code[i]))
  }

  /** Every well-formed code is what some draws generate. */
  lemma EveryCodeReachable(code: string)
    requires IsGameCode(code)
    ensures CodeOf(DrawsOf(code)) == code
  {
  }

  /** Distinct draws give distinct codes: no two alphabet positions hold the same character. */
  lemma {:induction false} DrawsRecoverable(draws: seq<nat>)
    requires ValidDraws(draws)
    ensures DrawsOf(CodeOf(draws)) == draws
  {
    var code := CodeOf(draws);
    forall i | 0 <= i < CodeLength
      ensures IndexOf(code[i]) == draws[i]
    {
      assert code[i] == AlphabetChar(draws[i]);
    }
  }

  /** `generateGameCode`: append the alphabet character each draw picks, five times. */
  method GenerateGameCode(draws: seq<nat>) returns (code: string)
    requires ValidDraws(draws)
    ensures IsGameCode(code)
    ensures code == CodeOf(draws)
  {
    AlphabetLayout();
    code := "";
    for i := 0 to CodeLength
      invariant |code| == i
      invariant forall k :: 0 <= k < i ==> code[k] == Alphabet[draws[k]]
    {
      code := code + [Alphabet[draws[i]]];
    }
  }

  /** `String.prototype.toUpperCase` on one character, for the ASCII letters. */
  function UpperChar(c: char): char {
    if 'a' <= c <= 'z' then (c as int - 32) as char else c
  }

  /** The lower-case form of an ASCII capital; other characters stay. */
  function LowerChar(c: char): char {
    if 'A' <= c <= 'Z' then (c as int + 32) as char else c
  }

  /** `String.prototype.toUpperCase`, character by character. */
  function ToUpper(s: string): (u: string)
    ensures |u| == |s|
    ensures forall i :: 0 <= i < |s| ==> u[i] == UpperChar(s[i])
  {
    if s == [] then [] else [UpperChar(s[0])] + ToUpper(s[1..])
  }

  /** Upper-casing leaves a generated code as it is. */
  lemma UpperKeepsCode(code: string)
    requires IsGameCode(code)
    ensures ToUpper(code) == code
  {
  }

  /** `s` spells `code` with any of its letters written in lower case. */
  predicate CaseVariant(s: string, code: string) {
    |s| == |code| && forall i :: 0 <= i < |s| ==> s[i] == code[i] || s[i] == LowerChar(code[i])
  }

  /**
   * Under ASCII upper-casing, the strings that upper-case to a generated
   * code are exactly its case variants: a client finds the match whatever
   * case it types the code in. The only-if half is about ASCII input only;
   * JavaScript's full case mapping sends a few other characters onto code
   * letters as well.
   */
  lemma UpperFindsCaseVariants(s: string, code: string)
    requires IsGameCode(code)
    ensures ToUpper(s) == code <==> CaseVariant(s, code)
  {
    if ToUpper(s) == code {
      forall i | 0 <= i < |s|
        ensures s[i] == code[i] || s[i] == LowerChar(code[i])
      {
        assert UpperChar(s[i]) == code[i];
      }
    }
    if CaseVariant(s, code) {
      forall i | 0 <= i < |s|
        ensures ToUpper(s)[i] == code[i]
      {
      }
    }
  }
}
