/**
 * Terminal colouring in CipherSweep.py and its removal before CSV export:
 * the colour constants, `format_tls_support`, and the substitution of every
 * match of `\033\[[0-9;]*m` by the empty string.
 */
module Ansi {
  import opened Wrappers

  /** The escape character `\033`. */
  const Esc: char := '\U{1B}'

  /** `[0-9;]`, the parameter characters of a colour sequence. */
  predicate IsParam(c: char) { '0' <= c <= '9' || c == ';' }

  /** The colour sequence `ESC [ code m`. */
  function Sgr(code: string): string {
    [Esc, '['] + code + "m"
  }

  const Red := Sgr("91")
  const Green := Sgr("92")
  const Reset := Sgr("0")

  /** `c` ends with the reset sequence. */
  predicate EndsWithReset(c: string) {
    |c| >= |Reset| && c[|c| - |Reset|..] == Reset
  }

  /** The uncoloured text `format_tls_support` wraps in colour. */
  function YesNo(b: bool): string {
    if b then "Yes" else "No"
  }

  /** `format_tls_support`: supporting a legacy version is shown in red,
      not supporting it in green; stripping the colour leaves "Yes" or "No". */
  function FormatTlsSupport(supports: bool): (r: string)
    ensures |r| > |Red| && r[..|Red|] == (if supports then Red else Green)
    ensures EndsWithReset(r)
    ensures StripEscapes(r) == YesNo(supports)
  {
    if supports then
      StripColoured("91", "Yes");
      Red + "Yes" + Reset
    else
      StripColoured("92", "No");
      Green + "No" + Reset
  }

  /** End of the maximal `[0-9;]` run starting at `i`. */
  function ParamRunEnd(s: string, i: nat): (r: nat)
    requires i <= |s|
    ensures i <= r <= |s|
    ensures forall k :: i <= k < r ==> IsParam(s[k])
    ensures r == |s| || !IsParam(s[r])
    decreases |s| - i
  {
    if i < |s| && IsParam(s[i]) then ParamRunEnd(s, i + 1) else i
  }

  /** `s[..n]` matches `\033\[[0-9;]*m` as a whole. */
  ghost predicate SgrAt(s: string, n: int) {
    && 3 <= n <= |s|
    && s[0] == Esc && s[1] == '[' && s[n - 1] == 'm'
    && forall k :: 2 <= k < n - 1 ==> IsParam(s[k])
  }

  /** Length of the colour sequence at the start of `s`, if one starts
      there. `[0-9;]*` is greedy and giving characters back never lets `m`
      follow, so the sequence ends right after the whole parameter run or
      not at all. */
  function EscapeAt(s: string): (r: Option<nat>)
    ensures r.Some? ==> SgrAt(s, r.value)
    ensures r.None? ==> forall n :: !SgrAt(s, n)
    ensures r.Some? ==> forall n :: SgrAt(s, n) ==> n == r.value
  {
    if |s| >= 2 && s[0] == Esc && s[1] == '[' then
      var k := ParamRunEnd(s, 2);
      SgrAtIsParamRun(s, k);
      if k < |s| && s[k] == 'm' then Some(k + 1) else None
    else None
  }

  /** A colour sequence at the start ends right after the whole parameter
      run. */
  lemma SgrAtIsParamRun(s: string, k: nat)
    requires |s| >= 2 && k == ParamRunEnd(s, 2)
    ensures forall n :: SgrAt(s, n) ==> n == k + 1
  {
    forall n | SgrAt(s, n) ensures n == k + 1 {
    }
  }

  /** `re.sub(r'\033\[[0-9;]*m', '', s)`: scanning left to right, each
      colour sequence is dropped and every other character kept. */
  function StripEscapes(s: string): (r: string)
    ensures |r| <= |s|
    ensures Esc !in s ==> r == s
    decreases |s|
  {
    if |s| == 0 then ""
    else match EscapeAt(s)
      case Some(n) => StripEscapes(s[n..])
      case None => [s[0]] + StripEscapes(s[1..])
  }

  /** A text that does not start with the escape character keeps its
      first character and strips the rest. */
  lemma StripKeepsFirst(s: string)
    requires |s| > 0 && s[0] != Esc
    ensures StripEscapes(s) == [s[0]] + StripEscapes(s[1..])
  {
    assert EscapeAt(s) == None;
  }

  /** Text without escape characters passes through unchanged in front of
      whatever follows. */
  lemma {:induction false} StripEscFreePrefix(a: string, b: string)
    requires Esc !in a
    ensures StripEscapes(a + b) == a + StripEscapes(b)
    decreases |a|
  {
    if |a| > 0 {
      var c := a + b;
      assert c[0] == a[0] && c[1..] == a[1..] + b;
      StripKeepsFirst(c);
      assert Esc !in a[1..];
      StripEscFreePrefix(a[1..], b);
      var rest := StripEscapes(b);
      assert [a[0]] + (a[1..] + rest) == ([a[0]] + a[1..]) + rest;
      assert [a[0]] + a[1..] == a;
    } else {
      assert a + b == b;
    }
  }

  /** A complete colour sequence in front is removed. */
  lemma StripSgrPrefix(code: string, w: string)
    requires forall k :: 0 <= k < |code| ==> IsParam(code[k])
    ensures StripEscapes(Sgr(code) + w) == StripEscapes(w)
  {
    var s := Sgr(code) + w;
    var n := |code| + 3;
    assert forall k :: 2 <= k < n - 1 ==> s[k] == code[k - 2];
    assert s[n - 1] == 'm';
    assert ParamRunEnd(s, 2) == n - 1;
    assert EscapeAt(s) == Some(n);
    assert s[n..] == w;
  }

  /** Escape-free text wrapped in a colour and a reset comes back out of
      stripping unchanged. */
  lemma StripColoured(code: string, w: string)
    requires forall k :: 0 <= k < |code| ==> IsParam(code[k])
    requires Esc !in w
    ensures StripEscapes(Sgr(code) + w + Reset) == w
  {
    StripSgrPrefix(code, w + Reset);
    assert Sgr(code) + w + Reset == Sgr(code) + (w + Reset);
    StripEscFreePrefix(w, Reset);
    StripSgrPrefix("0", "");
    assert Reset + "" == Reset;
  }
}
