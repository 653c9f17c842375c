/**
  The access-code generator: the alphabet, the code length and the blocklist,
  the blocklist predicate `is_allowed`, and `generate_codes`, which validates the
  requested count, draws candidates until it holds that many allowed codes, and
  returns them sorted.

  The pseudo-random source is modelled as a finite stream of alphabet positions,
  one per `rng.choice(ALPHABET)`. `OutOfDraws` stands for a loop that has not
  finished on the draws given; whether more draws finish it depends on the
  count and on the draws (module `CodeSpace` shows counts that no stream
  finishes).
*/
module CodeGenerator {
  import opened Text
  import opened Sorting

  /** The 21 consonants codes are made of; vowels are left out so that codes rarely spell words. */
  const Alphabet: string := "BCDFGHJKLMNPQRSTVWXYZ"

  const CodeLength: nat := 5

  /** The default blocklist of fragments no code may contain. */
  const BlockedSequences: set<string> :=
    {"ASS", "SEX", "FUK", "FUC", "CUM", "DCK", "CNT", "PNS", "TTS", "SHT", "FK"}

  /** What one `rng.choice(ALPHABET)` yields: a position in the alphabet. */
  type AlphabetIndex = i: int | 0 <= i < |Alphabet|

  function Pow(base: nat, exponent: nat): nat
  {
    if exponent == 0 then 1 else base * Pow(base, exponent - 1)
  }

  /** `len(ALPHABET) ** CODE_LENGTH`, the bound `generate_codes` checks `count` against. */
  const MaxCodes: nat := Pow(|Alphabet|, CodeLength)

  lemma MaxCodesValue()
    ensures |Alphabet| == 21
    ensures MaxCodes == 4084101
  {
    assert |Alphabet| == 21;
    assert Pow(21, 5) == 4084101;
  }

  /** The alphabet is in ascending character order, so its letters are distinct, and none is lower-case. */
  lemma AlphabetFacts()
    ensures forall i, j :: 0 <= i < j < |Alphabet| ==> Alphabet[i] < Alphabet[j]
    ensures forall i :: 0 <= i < |Alphabet| ==> !IsLowerChar(Alphabet[i])
  {
  }

  /** No letter of the alphabet is a vowel. */
  lemma AlphabetHasNoVowel()
    ensures forall i :: 0 <= i < |Alphabet| ==>
              Alphabet[i] != 'A' && Alphabet[i] != 'E' && Alphabet[i] != 'I' && Alphabet[i] != 'O' && Alphabet[i] != 'U'
  {
  }

  /** Every character of `x` is one of `letters`. */
  predicate OverLetters(x: string, letters: string)
  {
    forall i :: 0 <= i < |x| ==> x[i] in letters
  }

  /** A well-formed code: `CODE_LENGTH` characters, each from the alphabet. */
  predicate IsCode(s: string)
  {
    |s| == CodeLength && OverLetters(s, Alphabet)
  }

  /**
    `is_allowed(code, blocked)`: no entry of `blocked` occurs in the upper-cased
    code. Only the code is upper-cased; the entries are compared as given.
  */
  predicate IsAllowed(code: string, blocked: set<string>)
  {
    var upperCode := Upper(code);
    !exists bad :: bad in blocked && Occurs(bad, upperCode)
  }

  /** `IsAllowed` holds exactly when no blocked entry equals a slice of the upper-cased code. */
  lemma IsAllowedIffNoSlice(code: string, blocked: set<string>)
    ensures IsAllowed(code, blocked) <==>
            forall bad, i :: bad in blocked ==> !OccursAt(bad, Upper(code), i)
  {
    forall bad | bad in blocked {
      OccursIffSlice(bad, Upper(code));
    }
  }

  /** The empty string occurs in every string, so a blocklist holding it rejects every code. */
  lemma EmptyEntryBlocksEverything(code: string, blocked: set<string>)
    requires "" in blocked
    ensures !IsAllowed(code, blocked)
  {
    assert IsPrefix("", Upper(code));
  }

  /** A well-formed code is its own upper case, so for codes the blocklist is matched against the code itself. */
  lemma CodeIsAllowedIff(code: string, blocked: set<string>)
    requires IsCode(code)
    ensures IsAllowed(code, blocked) <==>
            forall bad, i :: bad in blocked ==> !OccursAt(bad, code, i)
  {
    AlphabetFacts();
    UpperOfUpperCase(code);
    IsAllowedIffNoSlice(code, blocked);
  }

  /** An entry holding a lower-case letter never matches, whatever the code: only the code is upper-cased. */
  lemma LowerEntryNeverMatches(code: string, bad: string, k: nat)
    requires k < |bad| && IsLowerChar(bad[k])
    ensures !Occurs(bad, Upper(code))
  {
    UpperIdempotent(code);
    MissingCharNeverOccurs(bad, Upper(code), bad[k]);
  }

  /** The verdict does not depend on the case of the code's letters. */
  lemma AllowedIgnoresCodeCase(code: string, blocked: set<string>)
    ensures IsAllowed(Upper(code), blocked) <==> IsAllowed(code, blocked)
  {
    UpperIdempotent(code);
  }

  /** The entries of the default blocklist that use only alphabet letters; the others contain a vowel. */
  const ConsonantEntries: set<string> := {"DCK", "CNT", "PNS", "TTS", "SHT", "FK"}

  /** The default entries that contain a vowel. */
  const VowelEntries: set<string> := {"ASS", "SEX", "FUK", "FUC", "CUM"}

  lemma BlocklistSplit()
    ensures BlockedSequences == VowelEntries + ConsonantEntries
  {
  }

  /** A string over `letters` has no character that `letters` lacks. */
  lemma OverLettersLacks(x: string, letters: string, c: char)
    requires OverLetters(x, letters)
    requires forall i :: 0 <= i < |letters| ==> letters[i] != c
    ensures c !in x
  {
  }

  /** No vowel-bearing entry occurs in a well-formed code. */
  lemma VowelEntriesAbsent(code: string)
    requires IsCode(code)
    ensures forall bad :: bad in VowelEntries ==> !Occurs(bad, Upper(code))
  {
    AlphabetFacts();
    AlphabetHasNoVowel();
    UpperOfUpperCase(code);
    OverLettersLacks(code, Alphabet, 'A');
    OverLettersLacks(code, Alphabet, 'E');
    OverLettersLacks(code, Alphabet, 'U');
    MissingCharNeverOccurs("ASS", code, 'A');
    MissingCharNeverOccurs("SEX", code, 'E');
    MissingCharNeverOccurs("FUK", code, 'U');
    MissingCharNeverOccurs("FUC", code, 'U');
    MissingCharNeverOccurs("CUM", code, 'U');
  }

  /**
    On well-formed codes the default blocklist acts as its six consonant-only
    entries: "ASS", "SEX", "FUK", "FUC" and "CUM" contain a vowel and can never match.
  */
  lemma VowelEntriesNeverMatch(code: string)
    requires IsCode(code)
    ensures IsAllowed(code, BlockedSequences) <==> IsAllowed(code, ConsonantEntries)
  {
    VowelEntriesAbsent(code);
    BlocklistSplit();
    UnmatchedEntriesIrrelevant(code, ConsonantEntries, VowelEntries);
  }

  /** Entries that do not occur in the upper-cased code do not change the verdict. */
  lemma UnmatchedEntriesIrrelevant(code: string, blocked: set<string>, unmatched: set<string>)
    requires forall bad :: bad in unmatched ==> !Occurs(bad, Upper(code))
    ensures IsAllowed(code, blocked + unmatched) <==> IsAllowed(code, blocked)
  {
  }

  /** The first position of `c` in `s`. */
  function IndexOf(c: char, s: string): (i: nat)
    requires c in s
    ensures i < |s| && s[i] == c && c !in s[..i]
  {
    if s[0] == c then 0 else IndexOf(c, s[1..]) + 1
  }

  /**
    The candidate built from `CODE_LENGTH` draws, as
    `"".join(rng.choice(ALPHABET) for _ in range(CODE_LENGTH))` builds it.
  */
  function Candidate(draws: seq<AlphabetIndex>): (code: string)
    requires |draws| == CodeLength
    ensures IsCode(code)
  {
    seq(CodeLength, i requires 0 <= i < CodeLength => Alphabet[draws[i]])
  }

  /** The draws that produce a given code. */
  function Encode(code: string): (draws: seq<AlphabetIndex>)
    requires IsCode(code)
    ensures |draws| == CodeLength
  {
    seq(CodeLength, i requires 0 <= i < CodeLength => IndexOf(code[i], Alphabet))
  }

  /** Every well-formed code is the candidate of some block of draws: the one `Encode` gives. */
  lemma CandidateOfEncode(code: string)
    requires IsCode(code)
    ensures Candidate(Encode(code)) == code
  {
  }

  /** Different blocks of draws give different candidates: the draws can be read back from the candidate. */
  lemma EncodeOfCandidate(draws: seq<AlphabetIndex>)
    requires |draws| == CodeLength
    ensures Encode(Candidate(draws)) == draws
  {
    var code := Candidate(draws);
    forall i | 0 <= i < CodeLength
      ensures IndexOf(code[i], Alphabet) == draws[i]
    {
      AlphabetFacts();
    }
  }

  /** The two `ValueError`s `generate_codes` raises. */
  datatype Error = InvalidCount | CapacityExceeded(maxCodes: nat)

  function DigitChar(d: nat): char
    requires d < 10
  {
    ('0' as int + d) as char
  }

  /** `str(n)` for a natural number: decimal digits only, with no leading zero. */
  function DecimalString(n: nat): (r: string)
    ensures |r| >= 1
    ensures forall i :: 0 <= i < |r| ==> '0' <= r[i] <= '9'
    ensures r[0] == '0' <==> n == 0
    decreases n
  {
    if n < 10 then [DigitChar(n)] else DecimalString(n / 10) + [DigitChar(n % 10)]
  }

  /** The number a string of decimal digits stands for, most significant digit first. */
  function DecimalValue(s: string): nat
    requires forall i :: 0 <= i < |s| ==> '0' <= s[i] <= '9'
  {
    if s == [] then 0 else DecimalValue(s[..|s| - 1]) * 10 + (s[|s| - 1] as int - '0' as int)
  }

  /** Reading the digits of `DecimalString(n)` back gives `n`. */
  lemma {:induction false} DecimalStringValue(n: nat)
    ensures DecimalValue(DecimalString(n)) == n
    decreases n
  {
    if n >= 10 {
      DecimalStringValue(n / 10);
      assert DecimalString(n)[..|DecimalString(n)| - 1] == DecimalString(n / 10);
    }
  }

  /** The text each `ValueError` carries. */
  function Message(e: Error): string
  {
    match e
    case InvalidCount => "count must be at least 1"
    case CapacityExceeded(maxCodes) => "count must be <= " + DecimalString(maxCodes)
  }

  lemma CapacityMessage()
    ensures Message(CapacityExceeded(MaxCodes)) == "count must be <= 4084101"
  {
    MaxCodesValue();
    assert DecimalString(40) == "40";
    assert DecimalString(408) == "408";
    assert DecimalString(4084) == "4084";
    assert DecimalString(40841) == "40841";
    assert DecimalString(408410) == "408410";
    assert DecimalString(4084101) == "4084101";
  }

  /** What one call of `generate_codes` ends with. */
  datatype Outcome =
    | Generated(codes: seq<string>)
    | Failed(error: Error)
    | OutOfDraws  // the finite stream standing for the generator ran dry first

  /** Where the rejection-sampling loop stops: with the accepted set and the draws consumed, or at the end of the stream. */
  datatype Sampling = Reached(accepted: set<string>, used: nat) | Exhausted(used: nat)

  /**
    The loop `while len(codes) < count`, started at position `pos` of the stream
    with `accepted` already collected: take the next `CODE_LENGTH` draws as a
    candidate and keep it when `blocked` allows it (`generate_codes` passes the
    default blocklist).
  */
  function Sample(count: int, blocked: set<string>, draws: seq<AlphabetIndex>, pos: nat, accepted: set<string>): Sampling
    requires pos <= |draws|
    decreases |draws| - pos
  {
    if |accepted| >= count then Reached(accepted, pos)
    else if |draws| - pos < CodeLength then Exhausted(pos)
    else
      var candidate := Candidate(draws[pos..pos + CodeLength]);
      var next := if IsAllowed(candidate, blocked) then accepted + {candidate} else accepted;
      Sample(count, blocked, draws, pos + CodeLength, next)
  }

  /** `generate_codes(count)` with the random source replaced by `draws`; also the number of draws it consumes. */
  ghost function Generate(count: int, draws: seq<AlphabetIndex>): (Outcome, nat)
  {
    if count < 1 then (Failed(InvalidCount), 0)
    else if count > MaxCodes then (Failed(CapacityExceeded(MaxCodes)), 0)
    else
      match Sample(count, BlockedSequences, draws, 0, {})
      case Reached(accepted, used) => (Generated(SortedListing(accepted)), used)
      case Exhausted(used) => (OutOfDraws, used)
  }

  /** Every code is well formed and passes `blocked`. */
  ghost predicate AllAllowedCodes(codes: set<string>, blocked: set<string>)
  {
    forall c :: c in codes ==> IsCode(c) && IsAllowed(c, blocked)
  }

  /**
    The loop's invariant, carried to its end: the accepted set only grows, stays
    made of allowed codes, reaches exactly `count` elements, and the loop
    consumes whole blocks of `CODE_LENGTH` draws without running past the stream.
  */
  lemma {:induction false} SampleInvariant(count: int, blocked: set<string>, draws: seq<AlphabetIndex>,
                                           pos: nat, accepted: set<string>)
    requires pos <= |draws| && pos % CodeLength == 0
    requires |accepted| <= count
    requires AllAllowedCodes(accepted, blocked)
    ensures Sample(count, blocked, draws, pos, accepted).used % CodeLength == 0
    ensures pos <= Sample(count, blocked, draws, pos, accepted).used <= |draws|
    ensures Sample(count, blocked, draws, pos, accepted).Reached? ==>
              var r := Sample(count, blocked, draws, pos, accepted).accepted;
              accepted <= r && |r| == count && AllAllowedCodes(r, blocked)
    decreases |draws| - pos
  {
    if |accepted| >= count {
    } else if |draws| - pos < CodeLength {
    } else {
      var candidate := Candidate(draws[pos..pos + CodeLength]);
      var next := if IsAllowed(candidate, blocked) then accepted + {candidate} else accepted;
      assert |next| <= |accepted| + 1;
      SampleInvariant(count, blocked, draws, pos + CodeLength, next);
    }
  }

  /** Listing a set of allowed codes in order keeps each of them once, and nothing else. */
  lemma ListingOfAllowed(accepted: set<string>, blocked: set<string>)
    requires AllAllowedCodes(accepted, blocked)
    ensures var codes := SortedListing(accepted);
            && |codes| == |accepted|
            && StrictlyAscending(codes)
            && Distinct(codes)
            && forall i :: 0 <= i < |codes| ==> IsCode(codes[i]) && IsAllowed(codes[i], blocked)
  {
    var codes := SortedListing(accepted);
    AscendingIsDistinct(codes);
    forall i | 0 <= i < |codes|
      ensures IsCode(codes[i]) && IsAllowed(codes[i], blocked)
    {
      assert codes[i] in Elems(codes);
    }
  }

  /**
    What a successful call returns: exactly `count` codes, each well formed and
    allowed, in strictly ascending order (so without repetitions), after whole
    blocks of draws.
  */
  lemma GeneratedCodesValid(count: int, draws: seq<AlphabetIndex>)
    ensures Generate(count, draws).1 <= |draws|
    ensures Generate(count, draws).1 % CodeLength == 0
    ensures Generate(count, draws).0.Generated? ==>
              var codes := Generate(count, draws).0.codes;
              && |codes| == count
              && StrictlyAscending(codes)
              && Distinct(codes)
              && forall i :: 0 <= i < |codes| ==> IsCode(codes[i]) && IsAllowed(codes[i], BlockedSequences)
  {
    if 1 <= count <= MaxCodes {
      var run := Sample(count, BlockedSequences, draws, 0, {});
      SampleInvariant(count, BlockedSequences, draws, 0, {});
      if run.Reached? {
        ListingOfAllowed(run.accepted, BlockedSequences);
      }
    }
  }

  /** Extra draws after the ones a finished loop consumed do not change where it stops. */
  lemma {:induction false} SampleIgnoresLaterDraws(count: int, blocked: set<string>, draws: seq<AlphabetIndex>, more: seq<AlphabetIndex>,
                                                   pos: nat, accepted: set<string>)
    requires pos <= |draws|
    requires Sample(count, blocked, draws, pos, accepted).Reached?
    ensures Sample(count, blocked, draws + more, pos, accepted) == Sample(count, blocked, draws, pos, accepted)
    decreases |draws| - pos
  {
    if |accepted| < count {
      assert (draws + more)[pos..pos + CodeLength] == draws[pos..pos + CodeLength];
      var candidate := Candidate(draws[pos..pos + CodeLength]);
      var next := if IsAllowed(candidate, blocked) then accepted + {candidate} else accepted;
      SampleIgnoresLaterDraws(count, blocked, draws, more, pos + CodeLength, next);
    }
  }

  /**
    Reproducibility: the outcome is a function of `count` and the stream, and a
    call that did not run out of draws reads only a prefix of the stream, so
    any continuation of that prefix gives the same codes.
  */
  lemma GenerateIgnoresLaterDraws(count: int, draws: seq<AlphabetIndex>, more: seq<AlphabetIndex>)
    requires !Generate(count, draws).0.OutOfDraws?
    ensures Generate(count, draws + more) == Generate(count, draws)
  {
    if 1 <= count <= MaxCodes {
      SampleIgnoresLaterDraws(count, BlockedSequences, draws, more, 0, {});
    }
  }

  /**
    `generate_codes(count, seed=...)` with the seeded generator's output given as
    `draws`. Validation comes first and consumes nothing: `count < 1` is
    checked before the capacity. A count inside the bounds is never rejected.
  */
  method GenerateCodes(count: int, draws: seq<AlphabetIndex>) returns (outcome: Outcome, used: nat)
    ensures (outcome, used) == Generate(count, draws)
    ensures count < 1 ==> outcome == Failed(InvalidCount) && used == 0
    ensures count > MaxCodes ==> outcome == Failed(CapacityExceeded(MaxCodes)) && used == 0
    ensures 1 <= count <= MaxCodes ==> !outcome.Failed?
    ensures used <= |draws| && used % CodeLength == 0
    ensures outcome.Generated? ==>
              && |outcome.codes| == count
              && StrictlyAscending(outcome.codes)
              && forall i :: 0 <= i < |outcome.codes| ==>
                   IsCode(outcome.codes[i]) && IsAllowed(outcome.codes[i], BlockedSequences)
  {
    GeneratedCodesValid(count, draws);
    if count < 1 {
      return Failed(InvalidCount), 0;
    }
    var maxCodes := Pow(|Alphabet|, CodeLength);
    if count > maxCodes {
      return Failed(CapacityExceeded(maxCodes)), 0;
    }
    var codes: set<string> := {};
    var pos: nat := 0;
    while |codes| < count
      invariant pos <= |draws|
      invariant Sample(count, BlockedSequences, draws, pos, codes) == Sample(count, BlockedSequences, draws, 0, {})
      decreases |draws| - pos
    {
      if |draws| - pos < CodeLength {
        return OutOfDraws, pos;
      }
      var candidate := Candidate(draws[pos..pos + CodeLength]);
      pos := pos + CodeLength;
      if IsAllowed(candidate, BlockedSequences) {
        codes := codes + {candidate};
      }
    }
    var sorted := Sort(codes);
    outcome := Generated(sorted);
    used := pos;
  }
}
