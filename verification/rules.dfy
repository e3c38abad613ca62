/**
 * The cipher classification rules of config.py. The two token lists that
 * config.py loads from JSON at import time are an explicit `Rules` value
 * here; a file that is missing or malformed loads as the empty list, so the
 * load-failure fallback is simply `Rules([], [])`.
 */
module CipherRules {
  import opened Text

  datatype Rules = Rules(strong: seq<string>, weak: seq<string>)

  /** The rules in force when neither list could be loaded. */
  const NoRules := Rules([], [])

  /** Hard-coded prefix of the TLS 1.3 cipher names that are always strong. */
  const AkePrefix := "TLS_AKE_"

  /** Some token of the list occurs in the cipher name. */
  ghost predicate SomeTokenOccurs(tokens: seq<string>, cipher: string) {
    exists k :: 0 <= k < |tokens| && IsSubstring(tokens[k], cipher)
  }

  /** Python's `any(token in cipher for token in tokens)`, scanning the list
      from the front. */
  function AnyOccurs(tokens: seq<string>, cipher: string): (b: bool)
    ensures b <==> SomeTokenOccurs(tokens, cipher)
    decreases |tokens|
  {
    if |tokens| == 0 then false
    else
      var rest := AnyOccurs(tokens[1..], cipher);
      assert SomeTokenOccurs(tokens[1..], cipher) ==> SomeTokenOccurs(tokens, cipher) by {
        if SomeTokenOccurs(tokens[1..], cipher) {
          var k :| 0 <= k < |tokens[1..]| && IsSubstring(tokens[1..][k], cipher);
          assert tokens[k + 1] == tokens[1..][k];
        }
      }
      Contains(cipher, tokens[0]) || rest
  }

  /** `is_strong_cipher`: a strong token occurs in the name, or the name
      starts with `TLS_AKE_`. */
  predicate IsStrongCipher(rules: Rules, cipher: string): (b: bool)
    ensures b <==> SomeTokenOccurs(rules.strong, cipher) || StartsWith(cipher, AkePrefix)
  {
    AnyOccurs(rules.strong, cipher) || StartsWith(cipher, AkePrefix)
  }

  /** `is_weak_cipher`: a weak token occurs in the name. */
  predicate IsWeakCipher(rules: Rules, cipher: string): (b: bool)
    ensures b <==> SomeTokenOccurs(rules.weak, cipher)
  {
    AnyOccurs(rules.weak, cipher)
  }

  /** Any strong-list token that occurs in the name makes it strong. */
  lemma StrongWhenTokenOccurs(rules: Rules, cipher: string, k: nat)
    requires k < |rules.strong| && IsSubstring(rules.strong[k], cipher)
    ensures IsStrongCipher(rules, cipher)
  {
  }

  /** A name starting with `TLS_AKE_` is strong whatever the strong list
      holds, including the empty list. */
  lemma StrongForAkePrefix(rules: Rules, cipher: string)
    requires StartsWith(cipher, AkePrefix)
    ensures IsStrongCipher(rules, cipher)
  {
  }

  /** With an empty strong list, exactly the `TLS_AKE_` names are strong. */
  lemma StrongWithEmptyList(rules: Rules, cipher: string)
    requires rules.strong == []
    ensures IsStrongCipher(rules, cipher) <==> StartsWith(cipher, AkePrefix)
  {
  }

  /** With an empty weak list nothing is weak. */
  lemma NothingWeakWithEmptyList(rules: Rules, cipher: string)
    requires rules.weak == []
    ensures !IsWeakCipher(rules, cipher)
  {
  }

  /** Every token of `small` is also a token of `large`. */
  ghost predicate Extends(small: seq<string>, large: seq<string>) {
    forall t :: t in small ==> t in large
  }

  /** Adding tokens to either list never turns a strong verdict into a
      non-strong one, nor a weak verdict into a non-weak one. */
  lemma MoreTokensKeepVerdicts(rules: Rules, more: Rules, cipher: string)
    requires Extends(rules.strong, more.strong) && Extends(rules.weak, more.weak)
    ensures IsStrongCipher(rules, cipher) ==> IsStrongCipher(more, cipher)
    ensures IsWeakCipher(rules, cipher) ==> IsWeakCipher(more, cipher)
  {
    if SomeTokenOccurs(rules.strong, cipher) {
      var k :| 0 <= k < |rules.strong| && IsSubstring(rules.strong[k], cipher);
      var t := rules.strong[k];
      assert t in more.strong;
      var k' :| 0 <= k' < |more.strong| && more.strong[k'] == t;
    }
    if SomeTokenOccurs(rules.weak, cipher) {
      var k :| 0 <= k < |rules.weak| && IsSubstring(rules.weak[k], cipher);
      var t := rules.weak[k];
      assert t in more.weak;
      var k' :| 0 <= k' < |more.weak| && more.weak[k'] == t;
    }
  }

  /** An empty token, as Python's `"" in s` is always true, matches every
      name, in either list. */
  lemma EmptyTokenMatchesAll(rules: Rules, cipher: string)
    ensures "" in rules.strong ==> IsStrongCipher(rules, cipher)
    ensures "" in rules.weak ==> IsWeakCipher(rules, cipher)
  {
    assert OccursAt("", cipher, 0);
    if "" in rules.strong {
      var k :| 0 <= k < |rules.strong| && rules.strong[k] == "";
    }
    if "" in rules.weak {
      var k :| 0 <= k < |rules.weak| && rules.weak[k] == "";
    }
  }
}
