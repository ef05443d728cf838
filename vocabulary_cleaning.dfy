/** Cleaning of a user-supplied vocabulary before its tokens are embedded
    (`_clean_vocabulary` in model2vec/distill/distillation.py).

    A token is kept when it is non-empty, is not one of the subword tokens the
    tokenizer already has (`added`), and has not been kept before. */
module VocabularyCleaning {

  /** The reference definition: the non-empty tokens of `vocab` that are not in
      `added`, each taken at its first occurrence, in input order. */
  function FirstOccurrences(vocab: seq<string>, added: seq<string>): (r: seq<string>)
    decreases |vocab|
  {
    if vocab == [] then []
    else
      var prefix := vocab[..|vocab| - 1];
      var t := vocab[|vocab| - 1];
      if t == "" || t in added || t in prefix then FirstOccurrences(prefix, added)
      else FirstOccurrences(prefix, added) + [t]
  }

  /** No token occurs twice in `s`. */
  ghost predicate Distinct(s: seq<string>)
  {
    forall i, j :: 0 <= i < j < |s| ==> s[i] != s[j]
  }

  /** The position of the first occurrence of `t` in `s`. */
  function FirstIndex(s: seq<string>, t: string): (r: nat)
    requires t in s
    ensures r < |s| && s[r] == t && t !in s[..r]
  {
    if s[0] == t then 0
    else
      var r := 1 + FirstIndex(s[1..], t);
      assert s[..r] == [s[0]] + s[1..][..r - 1];
      r
  }

  /** `out` lists its tokens in the order of their first occurrences in `vocab`. */
  ghost predicate InFirstOccurrenceOrder(out: seq<string>, vocab: seq<string>)
  {
    forall k, l :: 0 <= k < l < |out| ==>
      out[k] in vocab && out[l] in vocab && FirstIndex(vocab, out[k]) < FirstIndex(vocab, out[l])
  }

  /** Any index whose token does not occur earlier is the first index. */
  lemma FirstIndexUnique(s: seq<string>, t: string, i: nat)
    requires i < |s| && s[i] == t && t !in s[..i]
    ensures FirstIndex(s, t) == i
  {
  }

  /** The kept tokens are exactly the non-empty tokens of the input that are
      not subword tokens: nothing is invented and nothing eligible is lost. */
  lemma {:induction false} FirstOccurrencesMembership(vocab: seq<string>, added: seq<string>, t: string)
    ensures t in FirstOccurrences(vocab, added) <==> t != "" && t !in added && t in vocab
    decreases |vocab|
  {
    if vocab != [] {
      var prefix := vocab[..|vocab| - 1];
      assert vocab == prefix + [vocab[|vocab| - 1]];
      FirstOccurrencesMembership(prefix, added, t);
    }
  }

  /** No empty token, no subword token, and no token twice. */
  lemma {:induction false} FirstOccurrencesClean(vocab: seq<string>, added: seq<string>)
    ensures forall k :: 0 <= k < |FirstOccurrences(vocab, added)| ==>
      FirstOccurrences(vocab, added)[k] != "" && FirstOccurrences(vocab, added)[k] !in added
    ensures Distinct(FirstOccurrences(vocab, added))
    decreases |vocab|
  {
    if vocab != [] {
      var prefix := vocab[..|vocab| - 1];
      var t := vocab[|vocab| - 1];
      FirstOccurrencesClean(prefix, added);
      FirstOccurrencesMembership(prefix, added, t);
    }
  }

  /** The kept tokens appear in the order of their first occurrences in the
      input, so the result is an order-preserving subsequence of it. */
  lemma {:induction false} FirstOccurrencesOrder(vocab: seq<string>, added: seq<string>)
    ensures InFirstOccurrenceOrder(FirstOccurrences(vocab, added), vocab)
    decreases |vocab|
  {
    if vocab != [] {
      var prefix := vocab[..|vocab| - 1];
      var t := vocab[|vocab| - 1];
      var before := FirstOccurrences(prefix, added);
      FirstOccurrencesOrder(prefix, added);
      assert vocab == prefix + [t];
      // A token kept from the prefix keeps its first index in the whole input.
      forall k | 0 <= k < |before|
        ensures before[k] in prefix && before[k] in vocab
        ensures FirstIndex(vocab, before[k]) == FirstIndex(prefix, before[k]) < |prefix|
      {
        FirstOccurrencesMembership(prefix, added, before[k]);
        var f := FirstIndex(prefix, before[k]);
        assert vocab[..f] == prefix[..f];
        FirstIndexUnique(vocab, before[k], f);
      }
      if !(t == "" || t in added || t in prefix) {
        assert vocab[..|prefix|] == prefix;
        FirstIndexUnique(vocab, t, |prefix|);
      }
    }
  }

  /** Cleaning a cleaned vocabulary changes nothing. */
  lemma {:induction false} FirstOccurrencesIdempotent(vocab: seq<string>, added: seq<string>)
    ensures FirstOccurrences(FirstOccurrences(vocab, added), added) == FirstOccurrences(vocab, added)
  {
    var out := FirstOccurrences(vocab, added);
    FirstOccurrencesClean(vocab, added);
    CleanInputUnchanged(out, added);
  }

  /** A vocabulary that is already clean is returned as it is. */
  lemma {:induction false} CleanInputUnchanged(s: seq<string>, added: seq<string>)
    requires Distinct(s)
    requires forall k :: 0 <= k < |s| ==> s[k] != "" && s[k] !in added
    ensures FirstOccurrences(s, added) == s
    decreases |s|
  {
    if s != [] {
      var prefix := s[..|s| - 1];
      CleanInputUnchanged(prefix, added);
      assert s[|s| - 1] !in prefix;
      assert s == prefix + [s[|s| - 1]];
    }
  }

  /** The cleaning loop of the source. Besides the cleaned vocabulary it
      returns the two counters the source logs: the number of empty tokens and
      the number of repeated or subword tokens that were dropped. */
  method CleanVocabulary(preprocessed: seq<string>, added: seq<string>)
    returns (cleaned: seq<string>, nEmpty: nat, nDuplicates: nat)
    ensures cleaned == FirstOccurrences(preprocessed, added)
    ensures forall k :: 0 <= k < |cleaned| ==> cleaned[k] != "" && cleaned[k] !in added
    ensures Distinct(cleaned)
    ensures forall t :: t in cleaned <==> t != "" && t !in added && t in preprocessed
    ensures InFirstOccurrenceOrder(cleaned, preprocessed)
    ensures nEmpty == multiset(preprocessed)[""]
    ensures nEmpty + nDuplicates + |cleaned| == |preprocessed|
  {
    var addedSet: set<string> := set t | t in added;
    var seen: set<string> := {};
    cleaned := [];
    nEmpty, nDuplicates := 0, 0;
    for i := 0 to |preprocessed|
      invariant cleaned == FirstOccurrences(preprocessed[..i], added)
      invariant forall t :: t in seen <==> t in cleaned
      invariant nEmpty == multiset(preprocessed[..i])[""]
      invariant nEmpty + nDuplicates + |cleaned| == i
    {
      var token := preprocessed[i];
      assert preprocessed[..i + 1] == preprocessed[..i] + [token];
      assert preprocessed[..i + 1][..i] == preprocessed[..i];
      FirstOccurrencesMembership(preprocessed[..i], added, token);
      if token == "" {
        nEmpty := nEmpty + 1;
        continue;
      }
      if token in seen || token in addedSet {
        nDuplicates := nDuplicates + 1;
        continue;
      }
      seen := seen + {token};
      cleaned := cleaned + [token];
    }
    assert preprocessed[..|preprocessed|] == preprocessed;
    FirstOccurrencesClean(preprocessed, added);
    FirstOccurrencesOrder(preprocessed, added);
    forall t ensures t in cleaned <==> t != "" && t !in added && t in preprocessed {
      FirstOccurrencesMembership(preprocessed, added, t);
    }
  }
}
