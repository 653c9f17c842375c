/**
  The space of codes the generator draws from: every string of `CODE_LENGTH`
  alphabet letters, listed in ascending order, so that the capacity bound of
  `generate_codes` can be compared with what the rejection-sampling loop can
  actually collect.

  The bound `len(ALPHABET) ** CODE_LENGTH` counts all well-formed codes, blocked
  ones included. A count between the number of allowed codes and that bound
  passes validation, yet no stream of draws lets the loop finish.
  `GenerateCodesGuarded` checks the count against the number of allowed codes
  instead, and every count it accepts can be completed.
*/
module CodeSpace {
  import opened Text
  import opened Sorting
  import opened CodeGenerator

  /** `w` followed by each letter of `letters` in turn. */
  ghost function Suffixes(w: string, letters: string): (r: seq<string>)
    ensures |r| == |letters|
    ensures forall i :: 0 <= i < |letters| ==> r[i] == w + [letters[i]]
  {
    seq(|letters|, i requires 0 <= i < |letters| => w + [letters[i]])
  }

  /** Each of `words` in turn, followed by each letter of `letters`. */
  ghost function Extend(words: seq<string>, letters: string): seq<string>
    decreases |words|
  {
    if words == [] then [] else Suffixes(words[0], letters) + Extend(words[1..], letters)
  }

  /** Every string of `n` letters from `letters`. */
  ghost function AllStrings(letters: string, n: nat): seq<string>
  {
    if n == 0 then [""] else Extend(AllStrings(letters, n - 1), letters)
  }

  lemma {:induction false} ExtendLength(words: seq<string>, letters: string)
    ensures |Extend(words, letters)| == |words| * |letters|
    decreases |words|
  {
    if words != [] {
      ExtendLength(words[1..], letters);
      assert |words| * |letters| == |letters| + (|words| - 1) * |letters|;
    }
  }

  /** There are `|letters| ^ n` strings of length `n` over `letters`. */
  lemma {:induction false} AllStringsLength(letters: string, n: nat)
    ensures |AllStrings(letters, n)| == Pow(|letters|, n)
  {
    if n > 0 {
      AllStringsLength(letters, n - 1);
      ExtendLength(AllStrings(letters, n - 1), letters);
      assert Pow(|letters|, n - 1) * |letters| == |letters| * Pow(|letters|, n - 1);
    }
  }

  lemma {:induction false} ExtendMembers(words: seq<string>, letters: string, x: string)
    ensures x in Extend(words, letters) <==> |x| > 0 && x[..|x| - 1] in words && x[|x| - 1] in letters
    decreases |words|
  {
    if words != [] {
      ExtendMembers(words[1..], letters, x);
      var w := words[0];
      if |x| > 0 && x[..|x| - 1] == w && x[|x| - 1] in letters {
        var i :| 0 <= i < |letters| && letters[i] == x[|x| - 1];
        assert x == w + [letters[i]];
        assert Suffixes(w, letters)[i] == x;
      }
      if x in Suffixes(w, letters) {
        var i :| 0 <= i < |letters| && Suffixes(w, letters)[i] == x;
        assert x[..|x| - 1] == w;
      }
      assert words == [w] + words[1..];
    }
  }

  /** `AllStrings(letters, n)` holds exactly the strings of length `n` over `letters`. */
  lemma {:induction false} AllStringsMembers(letters: string, n: nat, x: string)
    ensures x in AllStrings(letters, n) <==> |x| == n && OverLetters(x, letters)
  {
    if n > 0 {
      ExtendMembers(AllStrings(letters, n - 1), letters, x);
      if |x| > 0 {
        var init := x[..|x| - 1];
        AllStringsMembers(letters, n - 1, init);
        assert OverLetters(x, letters) <==> OverLetters(init, letters) && x[|x| - 1] in letters by {
          assert forall i :: 0 <= i < |init| ==> init[i] == x[i];
        }
      }
    } else {
      assert |x| == 0 ==> x == "";
    }
  }

  lemma ConcatAscending(a: seq<string>, b: seq<string>)
    requires StrictlyAscending(a) && StrictlyAscending(b)
    requires forall i, j :: 0 <= i < |a| && 0 <= j < |b| ==> Less(a[i], b[j])
    ensures StrictlyAscending(a + b)
  {
  }

  lemma SuffixesAscending(w: string, letters: string)
    requires forall i, j :: 0 <= i < j < |letters| ==> letters[i] < letters[j]
    ensures StrictlyAscending(Suffixes(w, letters))
  {
    forall i, j | 0 <= i < j < |letters|
      ensures Less(w + [letters[i]], w + [letters[j]])
    {
      LessLastLetter(w, letters[i], letters[j]);
    }
  }

  /** Extending an ascending list of equally long words by ascending letters keeps it ascending. */
  lemma {:induction false} ExtendAscending(words: seq<string>, letters: string, n: nat)
    requires forall i, j :: 0 <= i < j < |letters| ==> letters[i] < letters[j]
    requires StrictlyAscending(words)
    requires forall i :: 0 <= i < |words| ==> |words[i]| == n
    ensures StrictlyAscending(Extend(words, letters))
    decreases |words|
  {
    if words != [] {
      var w := words[0];
      var head, tail := Suffixes(w, letters), Extend(words[1..], letters);
      ExtendAscending(words[1..], letters, n);
      SuffixesAscending(w, letters);
      forall i, j | 0 <= i < |head| && 0 <= j < |tail|
        ensures Less(head[i], tail[j])
      {
        var t := tail[j];
        ExtendMembers(words[1..], letters, t);
        var k :| 0 <= k < |words[1..]| && words[1..][k] == t[..|t| - 1];
        assert t == words[k + 1] + [t[|t| - 1]];
        LessAppendSameLength(w, words[k + 1], letters[i], t[|t| - 1]);
      }
      ConcatAscending(head, tail);
    }
  }

  /** Over letters in ascending order the enumeration is ascending, so it lists each string once. */
  lemma {:induction false} AllStringsAscending(letters: string, n: nat)
    requires forall i, j :: 0 <= i < j < |letters| ==> letters[i] < letters[j]
    ensures StrictlyAscending(AllStrings(letters, n))
  {
    if n > 0 {
      var words := AllStrings(letters, n - 1);
      AllStringsAscending(letters, n - 1);
      forall i | 0 <= i < |words|
        ensures |words[i]| == n - 1
      {
        AllStringsMembers(letters, n - 1, words[i]);
      }
      ExtendAscending(words, letters, n - 1);
    }
  }

  /** `AllStringsMembers` for every string at once, and for every entry of the list. */
  lemma AllStringsMembersAll(letters: string, n: nat)
    ensures forall x :: x in AllStrings(letters, n) <==> |x| == n && OverLetters(x, letters)
    ensures forall i :: 0 <= i < |AllStrings(letters, n)| ==>
              |AllStrings(letters, n)[i]| == n && OverLetters(AllStrings(letters, n)[i], letters)
  {
    var all := AllStrings(letters, n);
    forall x
      ensures x in all <==> |x| == n && OverLetters(x, letters)
    {
      AllStringsMembers(letters, n, x);
    }
    assert forall i :: 0 <= i < |all| ==> all[i] in all;
  }

  /** Every well-formed code, in ascending order. */
  ghost function AllCodes(): seq<string>
  {
    AllStrings(Alphabet, CodeLength)
  }

  /** The entries of `AllCodes()` are exactly the well-formed codes. */
  lemma AllCodesMembers()
    ensures forall x :: x in AllCodes() <==> IsCode(x)
    ensures forall i :: 0 <= i < |AllCodes()| ==> IsCode(AllCodes()[i])
  {
    AllStringsMembersAll(Alphabet, CodeLength);
  }

  /** `AllCodes()` is in strictly ascending order. */
  lemma AllCodesAscending()
    ensures StrictlyAscending(AllCodes())
  {
    AlphabetFacts();
    AllStringsAscending(Alphabet, CodeLength);
  }

  /** `AllCodes()` holds `len(ALPHABET) ** CODE_LENGTH` different strings. */
  lemma AllCodesSize()
    ensures |AllCodes()| == MaxCodes
    ensures |Elems(AllCodes())| == MaxCodes
  {
    AllCodesAscending();
    AllStringsLength(Alphabet, CodeLength);
    AscendingIsDistinct(AllCodes());
    DistinctCardinality(AllCodes());
  }

  lemma {:induction false} SubsetCardinality(a: set<string>, b: set<string>)
    requires a <= b
    ensures |a| <= |b|
    decreases |a|
  {
    if a != {} {
      var x :| x in a;
      SubsetCardinality(a - {x}, b - {x});
    }
  }

  /** No set of well-formed codes is larger than the capacity bound. */
  lemma CodeSetBound(codes: set<string>)
    requires forall c :: c in codes ==> IsCode(c)
    ensures |codes| <= MaxCodes
  {
    AllCodesMembers();
    AllCodesSize();
    SubsetCardinality(codes, Elems(AllCodes()));
  }

  /** The entries of `s` that `blocked` allows, in their order in `s`. */
  ghost function FilterAllowed(s: seq<string>, blocked: set<string>): (r: seq<string>)
    ensures forall x :: x in r <==> x in s && IsAllowed(x, blocked)
    decreases |s|
  {
    if s == [] then []
    else if IsAllowed(s[0], blocked) then [s[0]] + FilterAllowed(s[1..], blocked)
    else FilterAllowed(s[1..], blocked)
  }

  lemma {:induction false} FilterAscending(s: seq<string>, blocked: set<string>)
    requires StrictlyAscending(s)
    ensures StrictlyAscending(FilterAllowed(s, blocked))
    decreases |s|
  {
    if s != [] {
      var rest := FilterAllowed(s[1..], blocked);
      FilterAscending(s[1..], blocked);
      if IsAllowed(s[0], blocked) {
        forall j | 0 <= j < |rest|
          ensures Less(s[0], rest[j])
        {
          assert rest[j] in s[1..];
        }
        ConcatAscending([s[0]], rest);
      }
    }
  }

  /** Every code the default blocklist allows, in ascending order. */
  ghost function AllowedCodes(): seq<string>
  {
    FilterAllowed(AllCodes(), BlockedSequences)
  }

  /** How many codes the loop can ever collect. */
  ghost function AllowedCount(): nat
  {
    |AllowedCodes()|
  }

  /** The filtered list, position by position: ascending, well formed and allowed. */
  lemma FilterListed(s: seq<string>, blocked: set<string>)
    requires StrictlyAscending(s)
    requires forall i :: 0 <= i < |s| ==> IsCode(s[i])
    ensures StrictlyAscending(FilterAllowed(s, blocked))
    ensures forall i :: 0 <= i < |FilterAllowed(s, blocked)| ==>
              IsCode(FilterAllowed(s, blocked)[i]) && IsAllowed(FilterAllowed(s, blocked)[i], blocked)
  {
    var r := FilterAllowed(s, blocked);
    FilterAscending(s, blocked);
    forall i | 0 <= i < |r|
      ensures IsCode(r[i]) && IsAllowed(r[i], blocked)
    {
      assert r[i] in r;
    }
  }

  /**
    `AllowedCodes()` lists each allowed code once, in ascending order, and nothing
    else; position by position, every entry is a well-formed allowed code.
  */
  lemma AllowedCodesFacts()
    ensures forall x :: x in AllowedCodes() <==> IsCode(x) && IsAllowed(x, BlockedSequences)
    ensures StrictlyAscending(AllowedCodes()) && Distinct(AllowedCodes())
    ensures |Elems(AllowedCodes())| == AllowedCount()
    ensures forall i :: 0 <= i < |AllowedCodes()| ==>
              IsCode(AllowedCodes()[i]) && IsAllowed(AllowedCodes()[i], BlockedSequences)
  {
    AllCodesMembers();
    AllCodesAscending();
    FilterListed(AllCodes(), BlockedSequences);
    AscendingIsDistinct(AllowedCodes());
    DistinctCardinality(AllowedCodes());
  }

  /** A set of allowed codes never holds more than `AllowedCount()` codes. */
  lemma AllowedSetBound(codes: set<string>)
    requires AllAllowedCodes(codes, BlockedSequences)
    ensures |codes| <= AllowedCount()
  {
    AllowedCodesFacts();
    SubsetCardinality(codes, Elems(AllowedCodes()));
  }

  /** "FKBBB" is a well-formed code that the default blocklist rejects (it contains "FK"). */
  lemma BlockedCodeExample()
    ensures IsCode("FKBBB")
    ensures !IsAllowed("FKBBB", BlockedSequences)
  {
    AlphabetFacts();
    UpperOfUpperCase("FKBBB");
    assert IsPrefix("FK", "FKBBB");
  }

  /** Some well-formed codes are blocked, so fewer codes can be collected than the capacity bound admits. */
  lemma AllowedCountBelowMax()
    ensures AllowedCount() < MaxCodes
  {
    AllowedCodesFacts();
    BlockedCodeExample();
    var allowed := Elems(AllowedCodes());
    assert "FKBBB" !in allowed;
    CodeSetBound(allowed + {"FKBBB"});
  }

  /** "BBBBB" is a well-formed code the default blocklist allows: every entry ends in a letter other than 'B'. */
  lemma AllowedCodeExample()
    ensures IsCode("BBBBB") && IsAllowed("BBBBB", BlockedSequences)
  {
    AlphabetFacts();
    UpperOfUpperCase("BBBBB");
    forall bad | bad in BlockedSequences
      ensures !Occurs(bad, Upper("BBBBB"))
    {
      MissingCharNeverOccurs(bad, "BBBBB", bad[|bad| - 1]);
    }
  }

  /** Some code is allowed, so the range of counts the loop can complete is not empty. */
  lemma AllowedCountPositive()
    ensures AllowedCount() >= 1
  {
    AllowedCodeExample();
    AllowedCodesFacts();
    assert "BBBBB" in AllowedCodes();
  }

  /**
    As written: every count above `AllowedCount()` and within the capacity bound
    passes validation, yet no stream of draws lets the loop collect that many
    codes; the run only ends when the stream does.
  */
  lemma UnreachableCountPassesValidation(count: int, draws: seq<AlphabetIndex>)
    ensures AllowedCount() < count <= MaxCodes ==> Generate(count, draws).0 == OutOfDraws
  {
    if AllowedCount() < count <= MaxCodes {
      var run := Sample(count, BlockedSequences, draws, 0, {});
      SampleInvariant(count, BlockedSequences, draws, 0, {});
      if run.Reached? {
        AllowedSetBound(run.accepted);
      }
    }
  }

  /** `generate_codes(21 ** 5)`, the largest count validation admits, never finishes, whatever the seed. */
  lemma FullCapacityNeverCompletes(draws: seq<AlphabetIndex>)
    ensures Generate(MaxCodes, draws).0 == OutOfDraws
  {
    AllowedCountBelowMax();
    MaxCodesValue();
    UnreachableCountPassesValidation(MaxCodes, draws);
  }

  /** The draws that make the loop produce the given codes one after another. */
  function EncodeAll(codes: seq<string>): (draws: seq<AlphabetIndex>)
    requires forall i :: 0 <= i < |codes| ==> IsCode(codes[i])
  {
    if codes == [] then [] else Encode(codes[0]) + EncodeAll(codes[1..])
  }

  lemma {:induction false} EncodeAllAppend(a: seq<string>, b: seq<string>)
    requires forall i :: 0 <= i < |a| ==> IsCode(a[i])
    requires forall i :: 0 <= i < |b| ==> IsCode(b[i])
    ensures EncodeAll(a + b) == EncodeAll(a) + EncodeAll(b)
    decreases |a|
  {
    if a == [] {
      assert a + b == b;
    } else {
      assert (a + b)[0] == a[0] && (a + b)[1..] == a[1..] + b;
      EncodeAllAppend(a[1..], b);
      assert EncodeAll(a + b) == Encode(a[0]) + (EncodeAll(a[1..]) + EncodeAll(b));
    }
  }

  /** One turn of the loop: a candidate the blocklist allows joins the accepted set. */
  lemma SampleStep(count: int, blocked: set<string>, draws: seq<AlphabetIndex>, pos: nat, accepted: set<string>,
                   code: string)
    requires pos + CodeLength <= |draws|
    requires |accepted| < count
    requires IsCode(code) && IsAllowed(code, blocked)
    requires draws[pos..pos + CodeLength] == Encode(code)
    ensures Sample(count, blocked, draws, pos, accepted)
            == Sample(count, blocked, draws, pos + CodeLength, accepted + {code})
  {
    CandidateOfEncode(code);
  }

  /** Where the `k`-th code's draws sit in the encoding of a list of codes. */
  lemma EncodeAllPrefix(codes: seq<string>, k: nat)
    requires forall i :: 0 <= i < |codes| ==> IsCode(codes[i])
    requires k < |codes|
    ensures |EncodeAll(codes[..k])| + CodeLength == |EncodeAll(codes[..k + 1])| <= |EncodeAll(codes)|
    ensures EncodeAll(codes)[|EncodeAll(codes[..k])|..|EncodeAll(codes[..k + 1])|] == Encode(codes[k])
  {
    assert codes == codes[..k + 1] + codes[k + 1..];
    EncodeAllAppend(codes[..k + 1], codes[k + 1..]);
    assert codes[..k + 1] == codes[..k] + [codes[k]];
    EncodeAllAppend(codes[..k], [codes[k]]);
    assert EncodeAll([codes[k]]) == Encode(codes[k]) + EncodeAll([]);
  }

  /** Fed the encodings of distinct allowed codes, the loop accepts each of them in turn. */
  lemma {:induction false} SampleOnEncoded(codes: seq<string>, blocked: set<string>, k: nat)
    requires Distinct(codes)
    requires forall i :: 0 <= i < |codes| ==> IsCode(codes[i]) && IsAllowed(codes[i], blocked)
    requires k <= |codes|
    ensures |EncodeAll(codes[..k])| <= |EncodeAll(codes)|
    ensures Sample(|codes|, blocked, EncodeAll(codes), |EncodeAll(codes[..k])|, Elems(codes[..k]))
            == Reached(Elems(codes), |EncodeAll(codes)|)
    decreases |codes| - k
  {
    assert Distinct(codes[..k]);
    DistinctCardinality(codes[..k]);
    if k == |codes| {
      assert codes[..k] == codes;
    } else {
      EncodeAllPrefix(codes, k);
      var draws, pos := EncodeAll(codes), |EncodeAll(codes[..k])|;
      SampleStep(|codes|, blocked, draws, pos, Elems(codes[..k]), codes[k]);
      ElemsOfPrefix(codes, k);
      SampleOnEncoded(codes, blocked, k + 1);
    }
  }

  /** Each code takes `CODE_LENGTH` draws. */
  lemma {:induction false} EncodeAllLength(codes: seq<string>)
    requires forall i :: 0 <= i < |codes| ==> IsCode(codes[i])
    ensures |EncodeAll(codes)| == CodeLength * |codes|
  {
    if codes != [] {
      EncodeAllLength(codes[1..]);
    }
  }

  /** Fed the encodings of distinct allowed codes in ascending order, the loop collects exactly those codes. */
  lemma SampleCollectsList(codes: seq<string>, blocked: set<string>)
    requires StrictlyAscending(codes)
    requires forall i :: 0 <= i < |codes| ==> IsCode(codes[i]) && IsAllowed(codes[i], blocked)
    ensures Sample(|codes|, blocked, EncodeAll(codes), 0, {}) == Reached(Elems(codes), CodeLength * |codes|)
    ensures SortedListing(Elems(codes)) == codes
  {
    AscendingIsDistinct(codes);
    SampleOnEncoded(codes, blocked, 0);
    assert codes[..0] == [];
    EncodeAllLength(codes);
    ListingUnique(SortedListing(Elems(codes)), codes);
  }

  /** On the encodings of the first `count` entries of an ascending list of allowed codes, the run returns exactly those entries. */
  lemma ReachableFromList(allowed: seq<string>, count: int)
    requires StrictlyAscending(allowed)
    requires forall i :: 0 <= i < |allowed| ==> IsCode(allowed[i]) && IsAllowed(allowed[i], BlockedSequences)
    requires 1 <= count <= |allowed| && count <= MaxCodes
    ensures Generate(count, EncodeAll(allowed[..count]))
            == (Generated(allowed[..count]), CodeLength * count)
  {
    var codes := allowed[..count];
    assert forall i :: 0 <= i < |codes| ==> codes[i] == allowed[i];
    SampleCollectsList(codes, BlockedSequences);
  }

  /**
    Every count up to `AllowedCount()` can be completed: some stream of draws (the
    encodings of the first `count` allowed codes) makes `generate_codes(count)`
    return exactly those codes.
  */
  lemma AllowedCountReachable(count: int)
    ensures 1 <= count <= AllowedCount() ==>
              exists draws :: Generate(count, draws) == (Generated(AllowedCodes()[..count]), CodeLength * count)
  {
    if 1 <= count <= AllowedCount() {
      AllowedCodesFacts();
      AllowedCountBelowMax();
      ReachableFromList(AllowedCodes(), count);
    }
  }

  /** The `k`-th string of `n` letters over `letters`: `k` written in base `|letters|`, one letter per digit. */
  function IndexString(letters: string, n: nat, k: nat): (w: string)
    requires |letters| > 0
    ensures |w| == n && OverLetters(w, letters)
  {
    if n == 0 then "" else IndexString(letters, n - 1, k / |letters|) + [letters[k % |letters|]]
  }

  lemma {:induction false} ExtendAppend(a: seq<string>, b: seq<string>, letters: string)
    ensures Extend(a + b, letters) == Extend(a, letters) + Extend(b, letters)
    decreases |a|
  {
    if a == [] {
      assert a + b == b;
    } else {
      assert (a + b)[0] == a[0];
      assert (a + b)[1..] == a[1..] + b;
      ExtendAppend(a[1..], b, letters);
    }
  }

  /** `Extend` around the `i`-th word: the words before it, its own suffixes, the words after it. */
  lemma ExtendSplit(words: seq<string>, letters: string, i: nat)
    requires i < |words|
    ensures Extend(words, letters) ==
            Extend(words[..i], letters) + (Suffixes(words[i], letters) + Extend(words[i + 1..], letters))
  {
    var rest := words[i + 1..];
    assert words == words[..i] + ([words[i]] + rest);
    ExtendAppend(words[..i], [words[i]] + rest, letters);
    ExtendAppend([words[i]], rest, letters);
    assert [words[i]][1..] == [];
  }

  /** The words before the `i`-th one extend to `i * |letters|` strings. */
  lemma ExtendPrefixLength(words: seq<string>, letters: string, i: nat)
    requires i <= |words|
    ensures |Extend(words[..i], letters)| == i * |letters|
  {
    ExtendLength(words[..i], letters);
  }

  lemma IndexBelow(i: nat, j: nat, rows: nat, width: nat)
    requires i < rows && j < width
    ensures i * width + j < rows * width
  {
    MulMonotone(rows, i + 1, width);
  }

  lemma ConcatIndex(pre: seq<string>, mid: seq<string>, post: seq<string>, j: nat)
    requires j < |mid|
    ensures (pre + (mid + post))[|pre| + j] == mid[j]
  {
  }

  /** Entry `i * |letters| + j` of `Extend(words, letters)` is `words[i]` followed by `letters[j]`. */
  lemma ExtendAt(words: seq<string>, letters: string, i: nat, j: nat)
    requires i < |words| && j < |letters|
    ensures i * |letters| + j < |Extend(words, letters)|
    ensures Extend(words, letters)[i * |letters| + j] == words[i] + [letters[j]]
  {
    ExtendLength(words, letters);
    IndexBelow(i, j, |words|, |letters|);
    ExtendSplit(words, letters, i);
    ExtendPrefixLength(words, letters, i);
    ConcatIndex(Extend(words[..i], letters), Suffixes(words[i], letters), Extend(words[i + 1..], letters), j);
  }

  lemma DivBelow(k: nat, size: nat, p: nat)
    requires size > 0 && k < size * p
    ensures k / size < p
    ensures k == k / size * size + k % size
  {
    if k / size >= p {
      MulMonotone(k / size, p, size);
    }
  }

  lemma MulMonotone(a: nat, b: nat, c: nat)
    requires a >= b
    ensures a * c >= b * c
  {
  }

  /** The enumeration lists the strings in the order of their base-`|letters|` numbers. */
  lemma {:induction false} AllStringsAt(letters: string, n: nat, k: nat)
    requires |letters| > 0 && k < Pow(|letters|, n)
    ensures |AllStrings(letters, n)| == Pow(|letters|, n)
    ensures AllStrings(letters, n)[k] == IndexString(letters, n, k)
  {
    AllStringsLength(letters, n);
    if n > 0 {
      var q, d := k / |letters|, k % |letters|;
      DivBelow(k, |letters|, Pow(|letters|, n - 1));
      AllStringsAt(letters, n - 1, q);
      ExtendAt(AllStrings(letters, n - 1), letters, q, d);
    }
  }

  lemma {:induction false} FilterAppend(a: seq<string>, b: seq<string>, blocked: set<string>)
    ensures FilterAllowed(a + b, blocked) == FilterAllowed(a, blocked) + FilterAllowed(b, blocked)
    decreases |a|
  {
    if a == [] {
      assert a + b == b;
    } else {
      assert (a + b)[0] == a[0];
      assert (a + b)[1..] == a[1..] + b;
      FilterAppend(a[1..], b, blocked);
    }
  }

  /** One more entry of `s` adds one to the count of allowed entries exactly when it is allowed. */
  lemma FilterPrefixStep(s: seq<string>, k: nat, blocked: set<string>)
    requires k < |s|
    ensures |FilterAllowed(s[..k + 1], blocked)| ==
            |FilterAllowed(s[..k], blocked)| + (if IsAllowed(s[k], blocked) then 1 else 0)
  {
    assert s[..k + 1] == s[..k] + [s[k]];
    FilterAppend(s[..k], [s[k]], blocked);
    assert [s[k]][1..] == [];
  }

  /**
    Counts the strings of `length` letters over `letters` that `blocked` allows,
    walking their indices in base `|letters|`; no list of strings is ever built.
    Over the alphabet and the default blocklist the result is `AllowedCount()`.
  */
  method CountAllowed(letters: string, length: nat, blocked: set<string>) returns (n: nat)
    requires |letters| > 0
    ensures n == |FilterAllowed(AllStrings(letters, length), blocked)|
  {
    var total := Pow(|letters|, length);
    AllStringsLength(letters, length);
    n := 0;
    var k := 0;
    while k < total
      invariant k <= total
      invariant n == |FilterAllowed(AllStrings(letters, length)[..k], blocked)|
    {
      var word := IndexString(letters, length, k);
      AllStringsAt(letters, length, k);
      FilterPrefixStep(AllStrings(letters, length), k, blocked);
      if IsAllowed(word, blocked) {
        n := n + 1;
      }
      k := k + 1;
    }
    assert AllStrings(letters, length)[..k] == AllStrings(letters, length);
  }

  /**
    `generate_codes` with the capacity check made against the codes the loop can
    actually collect. Validation still comes first and consumes nothing.
  */
  method GenerateCodesGuarded(count: int, draws: seq<AlphabetIndex>) returns (outcome: Outcome, used: nat)
    ensures count < 1 ==> outcome == Failed(InvalidCount) && used == 0
    ensures count > AllowedCount() ==> outcome == Failed(CapacityExceeded(AllowedCount())) && used == 0
    ensures 1 <= count <= AllowedCount() ==> (outcome, used) == Generate(count, draws)
  {
    if count < 1 {
      return Failed(InvalidCount), 0;
    }
    var allowedCount := CountAllowed(Alphabet, CodeLength, BlockedSequences);
    if count > allowedCount {
      return Failed(CapacityExceeded(allowedCount)), 0;
    }
    outcome, used := GenerateCodes(count, draws);
  }

  /**
    With the guard, a count passes validation exactly when some stream of draws
    completes it.
  */
  lemma GuardIsExact(count: int)
    ensures (exists draws :: Generate(count, draws).0.Generated?) <==> 1 <= count <= AllowedCount()
  {
    if 1 <= count <= AllowedCount() {
      AllowedCountReachable(count);
      var draws :| Generate(count, draws) == (Generated(AllowedCodes()[..count]), CodeLength * count);
      assert Generate(count, draws).0.Generated?;
    } else {
      AllowedCountBelowMax();
      forall draws
        ensures !Generate(count, draws).0.Generated?
      {
        UnreachableCountPassesValidation(count, draws);
      }
    }
  }
}
