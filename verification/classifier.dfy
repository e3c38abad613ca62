/**
 * `classify_ciphers` of CipherSweep.py: one pass over the extracted names,
 * appending each to `strong`, `weak` or `unknown`, with the strong test made
 * before the weak one.
 */
module Classifier {
  import opened CipherRules

  datatype Verdict = Strong | Weak | Unknown

  /** The group one name lands in: strong is tested first, so a name that
      satisfies both predicates is strong. */
  function VerdictOf(rules: Rules, cipher: string): (v: Verdict)
    ensures v == Strong <==> IsStrongCipher(rules, cipher)
    ensures v == Weak <==> !IsStrongCipher(rules, cipher) && IsWeakCipher(rules, cipher)
    ensures v == Unknown <==> !IsStrongCipher(rules, cipher) && !IsWeakCipher(rules, cipher)
  {
    if IsStrongCipher(rules, cipher) then Strong
    else if IsWeakCipher(rules, cipher) then Weak
    else Unknown
  }

  /** Reference definition: the names of `ciphers` with verdict `v`, in input
      order (a filter). */
  function Select(rules: Rules, v: Verdict, ciphers: seq<string>): seq<string>
    decreases |ciphers|
  {
    if |ciphers| == 0 then []
    else (if VerdictOf(rules, ciphers[0]) == v then [ciphers[0]] else [])
         + Select(rules, v, ciphers[1..])
  }

  datatype Classified = Classified(strong: seq<string>, weak: seq<string>, unknown: seq<string>)

  /** The three groups the loop has built after the names of `ciphers`,
      each name appended to the group of its verdict. */
  function Classify(rules: Rules, ciphers: seq<string>): (r: Classified)
    ensures r.strong == Select(rules, Strong, ciphers)
    ensures r.weak == Select(rules, Weak, ciphers)
    ensures r.unknown == Select(rules, Unknown, ciphers)
    decreases |ciphers|
  {
    if |ciphers| == 0 then Classified([], [], [])
    else
      var init := ciphers[..|ciphers| - 1];
      var c := ciphers[|ciphers| - 1];
      var prev := Classify(rules, init);
      SelectAppend(rules, Strong, init, c);
      SelectAppend(rules, Weak, init, c);
      SelectAppend(rules, Unknown, init, c);
      assert init + [c] == ciphers;
      match VerdictOf(rules, c)
      case Strong => prev.(strong := prev.strong + [c])
      case Weak => prev.(weak := prev.weak + [c])
      case Unknown => prev.(unknown := prev.unknown + [c])
  }

  /** Filtering an extended input extends the filtered output. */
  lemma {:induction false} SelectAppend(rules: Rules, v: Verdict, s: seq<string>, c: string)
    ensures Select(rules, v, s + [c])
            == Select(rules, v, s) + (if VerdictOf(rules, c) == v then [c] else [])
    decreases |s|
  {
    if |s| > 0 {
      assert (s + [c])[1..] == s[1..] + [c];
      SelectAppend(rules, v, s[1..], c);
    }
  }

  /** Each group holds every input name of its verdict, as many times as the
      input holds it, and nothing else. */
  lemma {:induction false} SelectCounts(rules: Rules, v: Verdict, s: seq<string>, x: string)
    ensures multiset(Select(rules, v, s))[x]
            == if VerdictOf(rules, x) == v then multiset(s)[x] else 0
    decreases |s|
  {
    if |s| > 0 {
      SelectCounts(rules, v, s[1..], x);
      assert s == [s[0]] + s[1..];
    }
  }

  /** `sub` is `s` with some elements left out, the rest kept in order. */
  ghost predicate IsSubsequence(sub: seq<string>, s: seq<string>)
    decreases |s|
  {
    if |sub| == 0 then true
    else if |s| == 0 then false
    else (sub[0] == s[0] && IsSubsequence(sub[1..], s[1..])) || IsSubsequence(sub, s[1..])
  }

  /** Each group keeps the input order. */
  lemma {:induction false} SelectIsSubsequence(rules: Rules, v: Verdict, s: seq<string>)
    ensures IsSubsequence(Select(rules, v, s), s)
    decreases |s|
  {
    if |s| > 0 {
      SelectIsSubsequence(rules, v, s[1..]);
      var rest := Select(rules, v, s[1..]);
      if VerdictOf(rules, s[0]) == v {
        assert ([s[0]] + rest)[1..] == rest;
      } else {
        assert Select(rules, v, s) == rest;
      }
    }
  }

  /** Classification is a partition: duplicates included, the groups
      together hold exactly the input. */
  lemma {:induction false} ClassifyPartitions(rules: Rules, ciphers: seq<string>)
    ensures var r := Classify(rules, ciphers);
            multiset(r.strong) + multiset(r.weak) + multiset(r.unknown) == multiset(ciphers)
  {
    var r := Classify(rules, ciphers);
    var m := multiset(r.strong) + multiset(r.weak) + multiset(r.unknown);
    forall x | true
      ensures m[x] == multiset(ciphers)[x]
    {
      SelectCounts(rules, Strong, ciphers, x);
      SelectCounts(rules, Weak, ciphers, x);
      SelectCounts(rules, Unknown, ciphers, x);
    }
    assert m == multiset(ciphers);
  }

  /** The group sizes add up to the input size. */
  lemma {:induction false} ClassifySizes(rules: Rules, ciphers: seq<string>)
    ensures var r := Classify(rules, ciphers);
            |r.strong| + |r.weak| + |r.unknown| == |ciphers|
  {
    var r := Classify(rules, ciphers);
    ClassifyPartitions(rules, ciphers);
    assert |multiset(r.strong) + multiset(r.weak) + multiset(r.unknown)| == |ciphers|;
  }

  /** Each group is a subsequence of the input (input order kept). */
  lemma ClassifyKeepsOrder(rules: Rules, ciphers: seq<string>)
    ensures var r := Classify(rules, ciphers);
            IsSubsequence(r.strong, ciphers) && IsSubsequence(r.weak, ciphers)
            && IsSubsequence(r.unknown, ciphers)
  {
    SelectIsSubsequence(rules, Strong, ciphers);
    SelectIsSubsequence(rules, Weak, ciphers);
    SelectIsSubsequence(rules, Unknown, ciphers);
  }

  /** Strong takes precedence over weak: every weak name fails the strong
      test, every unknown name fails both, and a name of the input that
      passes both tests is in `strong` only. */
  lemma ClassifyPrecedence(rules: Rules, ciphers: seq<string>, c: string)
    ensures var r := Classify(rules, ciphers);
            c in r.strong ==> IsStrongCipher(rules, c)
    ensures var r := Classify(rules, ciphers);
            c in r.weak ==> !IsStrongCipher(rules, c) && IsWeakCipher(rules, c)
    ensures var r := Classify(rules, ciphers);
            c in r.unknown ==> !IsStrongCipher(rules, c) && !IsWeakCipher(rules, c)
    ensures var r := Classify(rules, ciphers);
            c in ciphers && IsStrongCipher(rules, c) && IsWeakCipher(rules, c)
            ==> c in r.strong && c !in r.weak && c !in r.unknown
  {
    var r := Classify(rules, ciphers);
    SelectCounts(rules, Strong, ciphers, c);
    SelectCounts(rules, Weak, ciphers, c);
    SelectCounts(rules, Unknown, ciphers, c);
    assert c in r.strong <==> multiset(r.strong)[c] > 0;
    assert c in r.weak <==> multiset(r.weak)[c] > 0;
    assert c in r.unknown <==> multiset(r.unknown)[c] > 0;
    assert c in ciphers <==> multiset(ciphers)[c] > 0;
  }

  /** A name of the input in which a weak token and no strong token occurs,
      and which does not start with `TLS_AKE_`, is classified weak. */
  lemma WeakTokenOnlyIsWeak(rules: Rules, ciphers: seq<string>, c: string)
    requires c in ciphers
    requires SomeTokenOccurs(rules.weak, c)
    requires !SomeTokenOccurs(rules.strong, c) && !Text.StartsWith(c, AkePrefix)
    ensures c in Classify(rules, ciphers).weak
  {
    SelectCounts(rules, Weak, ciphers, c);
  }

  /** A name of the input starting with `TLS_AKE_` is classified strong,
      whatever the rules hold. */
  lemma AkeIsStrong(rules: Rules, ciphers: seq<string>, c: string)
    requires c in ciphers && Text.StartsWith(c, AkePrefix)
    ensures c in Classify(rules, ciphers).strong
  {
    SelectCounts(rules, Strong, ciphers, c);
  }

  /** With neither list loaded (`NoRules`), nothing is weak and the input
      splits into the `TLS_AKE_` names, which are strong, and the rest,
      which are unknown. */
  lemma ClassifyWithNoRules(ciphers: seq<string>, c: string)
    ensures Classify(NoRules, ciphers).weak == []
    ensures c in Classify(NoRules, ciphers).strong <==> c in ciphers && Text.StartsWith(c, AkePrefix)
    ensures c in Classify(NoRules, ciphers).unknown <==> c in ciphers && !Text.StartsWith(c, AkePrefix)
  {
    var r := Classify(NoRules, ciphers);
    if |r.weak| > 0 {
      SelectCounts(NoRules, Weak, ciphers, r.weak[0]);
    }
    SelectCounts(NoRules, Strong, ciphers, c);
    SelectCounts(NoRules, Unknown, ciphers, c);
    assert c in r.strong <==> multiset(r.strong)[c] > 0;
    assert c in r.unknown <==> multiset(r.unknown)[c] > 0;
    assert c in ciphers <==> multiset(ciphers)[c] > 0;
  }
}
