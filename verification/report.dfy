/**
 * Row assembly and the batch loop of CipherSweep.py: `format_ciphers`,
 * `scan_host` after the scanner has returned its text, the collecting loop
 * of `scan_from_file`, and the colour stripping `save_to_csv` applies to
 * every cell.
 *
 * The scanner's text is an input here. `textwrap.wrap` is an opaque
 * parameter `wrap`: only what the model assumes of it, where it assumes
 * anything, is stated.
 */
module Report {
  import opened Text
  import opened Wrappers
  import opened CipherRules
  import opened Classifier
  import opened Extractor
  import opened Ansi

  /** Column width `format_ciphers` wraps at. */
  const MaxWidth: nat := 50

  /** Header row of the CSV file. */
  const CsvHeaders := ["Hostname", "Supports TLS 1.0", "Supports TLS 1.1",
                       "Weak Ciphers", "Strong Ciphers", "Unknown Ciphers"]

  /** One report row: the six cells `scan_host` returns. */
  datatype Row = Row(hostname: string, tls10: string, tls11: string,
                     weak: string, strong: string, unknown: string)

  /** The cells of a row, in column order. */
  function Cells(row: Row): seq<string> {
    [row.hostname, row.tls10, row.tls11, row.weak, row.strong, row.unknown]
  }

  /** `wrap` introduces no escape character into escape-free text. */
  ghost predicate KeepsEscFree(wrap: (string, nat) -> seq<string>) {
    forall t :: Esc !in t ==> forall k :: 0 <= k < |wrap(t, MaxWidth)| ==> Esc !in wrap(t, MaxWidth)[k]
  }

  /** The lines `textwrap.wrap` makes of `text`, joined by newlines. */
  function Wrapped(text: string, wrap: (string, nat) -> seq<string>): string {
    Join("\n", wrap(text, MaxWidth))
  }

  /** `format_ciphers`: the wrapped text, in `colour` unless `colour` is
      empty (Python's `None`). In the colours the tool uses, stripping the
      colour gives back the wrapped text, provided that text holds no
      escape character. */
  function FormatCiphers(text: string, colour: string, wrap: (string, nat) -> seq<string>): (r: string)
    ensures |r| >= |Wrapped(text, wrap)|
    ensures colour != "" ==> StartsWith(r, colour) && EndsWithReset(r)
    ensures colour == "" ==> r == Wrapped(text, wrap)
    ensures (colour == Red || colour == Green || colour == "") && Esc !in Wrapped(text, wrap) ==>
              StripEscapes(r) == Wrapped(text, wrap)
  {
    var w := Wrapped(text, wrap);
    assert Esc !in w ==> StripEscapes(Red + w + Reset) == w && StripEscapes(Green + w + Reset) == w by {
      if Esc !in w {
        StripColoured("91", w);
        StripColoured("92", w);
      }
    }
    if colour != "" then colour + w + Reset else w
  }

  /** The row `scan_host` returns once it has the legacy-version flags and
      the three cipher groups: the hostname as given, "Yes"/"No" under the
      colour for each flag, and under the colour each group's text, joined
      by `, ` and wrapped. */
  function HostRow(hostname: string, versions: (bool, bool), groups: Classified,
                   wrap: (string, nat) -> seq<string>): (r: Row)
    ensures r.hostname == hostname
    ensures StartsWith(r.tls10, if versions.0 then Red else Green)
    ensures StartsWith(r.tls11, if versions.1 then Red else Green)
    ensures StartsWith(r.weak, Red) && StartsWith(r.strong, Green)
    ensures EndsWithReset(r.tls10) && EndsWithReset(r.tls11)
    ensures EndsWithReset(r.weak) && EndsWithReset(r.strong)
    ensures r.unknown == Wrapped(Join(", ", groups.unknown), wrap)
    ensures StripEscapes(r.tls10) == YesNo(versions.0) && StripEscapes(r.tls11) == YesNo(versions.1)
    ensures var weak := Wrapped(Join(", ", groups.weak), wrap);
            Esc !in weak ==> StripEscapes(r.weak) == weak
    ensures var strong := Wrapped(Join(", ", groups.strong), wrap);
            Esc !in strong ==> StripEscapes(r.strong) == strong
    ensures var unknown := Wrapped(Join(", ", groups.unknown), wrap);
            Esc !in unknown ==> StripEscapes(r.unknown) == unknown
  {
    var tls10 := FormatTlsSupport(versions.0);
    var tls11 := FormatTlsSupport(versions.1);
    var weak := FormatCiphers(Join(", ", groups.weak), Red, wrap);
    var strong := FormatCiphers(Join(", ", groups.strong), Green, wrap);
    var unknown := FormatCiphers(Join(", ", groups.unknown), "", wrap);
    Row(hostname, tls10, tls11, weak, strong, unknown)
  }

  /** `scan_host` from the point the scanner's text `output` is known:
      no row for an empty text or a text without cipher names, otherwise
      the hostname, the two legacy-version cells and the three cipher
      groups. */
  function ScanHost(rules: Rules, wrap: (string, nat) -> seq<string>,
                    hostname: string, output: string): (r: Option<Row>)
    ensures r.Some? ==> r.value.hostname == hostname
  {
    if |output| == 0 then None
    else
      var ciphers := ExtractCiphers(output);
      var versions := ExtractTlsVersions(output);
      if |ciphers| == 0 then None
      else Some(HostRow(hostname, versions, Classify(rules, ciphers), wrap))
  }

  /** A host is skipped exactly when the scanner's text is empty or no
      match of the cipher pattern starts anywhere in it. */
  lemma ScanHostSkips(rules: Rules, wrap: (string, nat) -> seq<string>,
                      hostname: string, output: string)
    ensures ScanHost(rules, wrap, hostname, output).None? <==>
            |output| == 0 || forall q :: 0 <= q < |output| ==> !MatchStartsAt(output, q)
  {
    NoCiphersIffNoMatch(output);
  }

  /** A row shows, once the colour is stripped, "Yes" for each legacy
      marker present in the scanner's text and "No" for each absent one. */
  lemma ScanHostFlags(rules: Rules, wrap: (string, nat) -> seq<string>,
                      hostname: string, output: string, row: Row)
    ensures ScanHost(rules, wrap, hostname, output) == Some(row) ==>
              StripEscapes(row.tls10) == YesNo(IsSubstring(Tls10Marker, output))
    ensures ScanHost(rules, wrap, hostname, output) == Some(row) ==>
              StripEscapes(row.tls11) == YesNo(IsSubstring(Tls11Marker, output))
  {
    if ScanHost(rules, wrap, hostname, output) == Some(row) {
      assert row == HostRow(hostname, ExtractTlsVersions(output),
                            Classify(rules, ExtractCiphers(output)), wrap);
    }
  }

  /** One line of the host file and the scanner's text for that host. */
  datatype HostScan = HostScan(line: string, output: string)

  /** What the batch loop does with one line of the host file, given the
      scanner's text for that host: `scan_host(host.strip(), port)`. */
  type LineScanner = (string, string) -> Option<Row>

  /** The line scanner of `scan_from_file`: strip the line, then
      `scan_host` with the rules and the wrapping fixed. */
  function ScannerOf(rules: Rules, wrap: (string, nat) -> seq<string>): (scan: LineScanner)
    ensures forall line, output :: scan(line, output) == ScanHost(rules, wrap, Strip(line), output)
  {
    (line: string, output: string) => ScanHost(rules, wrap, Strip(line), output)
  }

  /** The line scanner applied to every line, in file order. */
  function Attempts(scan: LineScanner, scans: seq<HostScan>): (r: seq<Option<Row>>)
    ensures |r| == |scans|
    ensures forall k :: 0 <= k < |scans| ==> r[k] == scan(scans[k].line, scans[k].output)
  {
    seq(|scans|, k requires 0 <= k < |scans| => scan(scans[k].line, scans[k].output))
  }

  /** Reference definition: the present values, in order. */
  function Present<T>(xs: seq<Option<T>>): seq<T>
    decreases |xs|
  {
    if |xs| == 0 then []
    else (if xs[0].Some? then [xs[0].value] else []) + Present(xs[1..])
  }

  /** Appending to the input appends its value, if present, to the output. */
  lemma {:induction false} PresentAppend<T>(xs: seq<Option<T>>, x: Option<T>)
    ensures Present(xs + [x]) == Present(xs) + (if x.Some? then [x.value] else [])
    decreases |xs|
  {
    if |xs| > 0 {
      assert (xs + [x])[1..] == xs[1..] + [x];
      PresentAppend(xs[1..], x);
    }
  }

  /** A value is kept exactly when it is present in the input; at most one
      output per input; as many outputs as inputs only when all are
      present. */
  lemma {:induction false} PresentSpec<T>(xs: seq<Option<T>>)
    ensures |Present(xs)| <= |xs|
    ensures |Present(xs)| == |xs| <==> forall k :: 0 <= k < |xs| ==> xs[k].Some?
    ensures forall y :: y in Present(xs) <==> exists k :: 0 <= k < |xs| && xs[k] == Some(y)
    decreases |xs|
  {
    if |xs| > 0 {
      PresentSpec(xs[1..]);
      assert xs == [xs[0]] + xs[1..];
      assert forall k :: 1 <= k < |xs| ==> xs[k] == xs[1..][k - 1];
      if |Present(xs)| == |xs| {
        assert xs[0].Some?;
      }
      forall y | exists k :: 0 <= k < |xs| && xs[k] == Some(y)
        ensures y in Present(xs)
      {
        var k :| 0 <= k < |xs| && xs[k] == Some(y);
        if k > 0 {
          assert xs[1..][k - 1] == Some(y);
        }
      }
    }
  }

  /** The collecting loop of `scan_from_file`: one `scan_host` per line,
      keeping the rows of the hosts that produced one, in file order. */
  method ScanFromFile(scan: LineScanner, scans: seq<HostScan>) returns (results: seq<Row>)
    ensures results == Present(Attempts(scan, scans))
    ensures |results| <= |scans|
    ensures forall row :: row in results <==>
              exists k :: 0 <= k < |scans| && scan(scans[k].line, scans[k].output) == Some(row)
  {
    results := [];
    var i := 0;
    while i < |scans|
      invariant 0 <= i <= |scans|
      invariant results == Present(Attempts(scan, scans)[..i])
    {
      var result := scan(scans[i].line, scans[i].output);
      if result.Some? {
        results := results + [result.value];
      }
      AttemptsStep(scan, scans, i);
      i := i + 1;
    }
    AttemptsKept(scan, scans);
  }

  /** The attempts of the first `i + 1` lines extend those of the first `i`. */
  lemma AttemptsStep(scan: LineScanner, scans: seq<HostScan>, i: nat)
    requires i < |scans|
    ensures var attempts := Attempts(scan, scans);
            var result := scan(scans[i].line, scans[i].output);
            Present(attempts[..i + 1])
            == Present(attempts[..i]) + (if result.Some? then [result.value] else [])
  {
    var attempts := Attempts(scan, scans);
    assert attempts[..i + 1] == attempts[..i] + [attempts[i]];
    PresentAppend(attempts[..i], attempts[i]);
  }

  /** The rows kept from all lines: at most one per line, and exactly the
      rows some line produced. */
  lemma AttemptsKept(scan: LineScanner, scans: seq<HostScan>)
    ensures var attempts := Attempts(scan, scans);
            && attempts[..|scans|] == attempts
            && |Present(attempts)| <= |scans|
            && forall row :: row in Present(attempts) <==>
                 exists k :: 0 <= k < |scans| && scan(scans[k].line, scans[k].output) == Some(row)
  {
    var attempts := Attempts(scan, scans);
    PresentSpec(attempts);
    forall row | row in Present(attempts)
      ensures exists k :: 0 <= k < |scans| && scan(scans[k].line, scans[k].output) == Some(row)
    {
      var k :| 0 <= k < |attempts| && attempts[k] == Some(row);
    }
    forall row, k | 0 <= k < |scans| && scan(scans[k].line, scans[k].output) == Some(row)
      ensures row in Present(attempts)
    {
      assert attempts[k] == Some(row);
    }
  }

  /** The batch loop with CipherSweep's own line scanner: every row kept
      comes from a host line whose stripped text is the row's hostname and
      whose scanner text is non-empty and names a cipher; every such line
      gives a kept row for that hostname. */
  lemma BatchRowsAreScannedHosts(rules: Rules, wrap: (string, nat) -> seq<string>,
                                 scans: seq<HostScan>, row: Row, k: nat)
    ensures row in Present(Attempts(ScannerOf(rules, wrap), scans)) ==>
              exists i :: 0 <= i < |scans| && row.hostname == Strip(scans[i].line)
                && |scans[i].output| > 0 && ExtractCiphers(scans[i].output) != []
    ensures k < |scans| && |scans[k].output| > 0 && ExtractCiphers(scans[k].output) != [] ==>
              exists kept :: kept in Present(Attempts(ScannerOf(rules, wrap), scans))
                && kept.hostname == Strip(scans[k].line)
  {
    var scan := ScannerOf(rules, wrap);
    AttemptsKept(scan, scans);
    if k < |scans| && |scans[k].output| > 0 && ExtractCiphers(scans[k].output) != [] {
      var kept := ScanHost(rules, wrap, Strip(scans[k].line), scans[k].output).value;
      assert scan(scans[k].line, scans[k].output) == Some(kept);
    }
  }

  /** A batch of three hosts whose middle one yields nothing produces the
      two other rows, in host order. */
  lemma OneFailingHostSkipped(scan: LineScanner, a: HostScan, b: HostScan, c: HostScan,
                              rowA: Row, rowC: Row)
    requires scan(a.line, a.output) == Some(rowA)
    requires scan(b.line, b.output) == None
    requires scan(c.line, c.output) == Some(rowC)
    ensures Present(Attempts(scan, [a, b, c])) == [rowA, rowC]
  {
    var xs := Attempts(scan, [a, b, c]);
    var hs := [a, b, c];
    assert hs[0] == a && hs[1] == b && hs[2] == c;
    PresentGap(xs, rowA, rowC);
  }

  /** A missing value between two present ones is dropped. */
  lemma PresentGap<T>(xs: seq<Option<T>>, x: T, y: T)
    requires |xs| == 3 && xs[0] == Some(x) && xs[1] == None && xs[2] == Some(y)
    ensures Present(xs) == [x, y]
  {
    var tail := xs[1..][1..];
    assert tail == [Some(y)];
    assert Present(tail) == [y] + Present(tail[1..]);
    assert Present(xs[1..]) == Present(tail);
  }

  /** The CSV cells of a row: one per header, every cell with its colour
      sequences removed, so no cell grows and a cell without escape
      characters is written as it is. */
  function CsvCells(row: Row): (r: seq<string>)
    ensures |r| == |CsvHeaders|
    ensures forall k :: 0 <= k < |r| ==>
              |r[k]| <= |Cells(row)[k]| && (Esc !in Cells(row)[k] ==> r[k] == Cells(row)[k])
  {
    var cells := Cells(row);
    [StripEscapes(cells[0]), StripEscapes(cells[1]), StripEscapes(cells[2]),
     StripEscapes(cells[3]), StripEscapes(cells[4]), StripEscapes(cells[5])]
  }

  /** No extracted cipher name holds an escape character. */
  lemma CiphersEscFree(output: string, c: string)
    ensures c in ExtractCiphers(output) ==> Esc !in c
  {
    if c in ExtractCiphers(output) {
      var k :| 0 <= k < |ExtractCiphers(output)| && ExtractCiphers(output)[k] == c;
      assert CipherShape(c);
      forall i | 0 <= i < |c| ensures c[i] != Esc {
        WordIsNotEsc(c[i]);
      }
    }
  }


  /** No character of a cipher name is the escape character. */
  lemma WordIsNotEsc(ch: char)
    requires IsWord(ch)
    ensures ch != Esc
  {
    assert ch == '_' || 'A' <= ch <= 'Z' || '0' <= ch <= '9';
  }

  /** A cipher group joined by `, ` and wrapped holds no escape character. */
  lemma GroupTextEscFree(wrap: (string, nat) -> seq<string>, output: string, group: seq<string>)
    requires KeepsEscFree(wrap)
    requires forall c :: c in group ==> c in ExtractCiphers(output)
    ensures Esc !in Wrapped(Join(", ", group), wrap)
  {
    forall k | 0 <= k < |group| ensures Esc !in group[k] {
      CiphersEscFree(output, group[k]);
    }
    JoinAvoids(", ", group, Esc);
    var lines := wrap(Join(", ", group), MaxWidth);
    JoinAvoids("\n", lines, Esc);
  }

  /** Every member of a group is one of the classified names. */
  lemma GroupMembers(rules: Rules, ciphers: seq<string>, v: Verdict, c: string)
    requires c in Select(rules, v, ciphers)
    ensures c in ciphers
  {
    SelectCounts(rules, v, ciphers, c);
    assert multiset(Select(rules, v, ciphers))[c] > 0;
  }

  /** `save_to_csv` writes the hostname unchanged when it holds no escape
      character. */
  lemma CsvHostnameCell(hostname: string, versions: (bool, bool), groups: Classified,
                        wrap: (string, nat) -> seq<string>)
    requires Esc !in hostname
    ensures CsvCells(HostRow(hostname, versions, groups, wrap))[0] == hostname
  {
  }

  /** `save_to_csv` writes "Yes"/"No" for each legacy-version flag. */
  lemma CsvFlagCells(hostname: string, versions: (bool, bool), groups: Classified,
                     wrap: (string, nat) -> seq<string>)
    ensures var cells := CsvCells(HostRow(hostname, versions, groups, wrap));
            cells[1] == YesNo(versions.0) && cells[2] == YesNo(versions.1)
  {
  }

  /** What `save_to_csv` writes in the cipher columns of a row: for each
      group whose wrapped text holds no escape character, exactly that text,
      the colour removed. */
  lemma CsvGroupCells(hostname: string, versions: (bool, bool), groups: Classified,
                      wrap: (string, nat) -> seq<string>)
    ensures var cells := CsvCells(HostRow(hostname, versions, groups, wrap));
            var weak := Wrapped(Join(", ", groups.weak), wrap);
            Esc !in weak ==> cells[3] == weak
    ensures var cells := CsvCells(HostRow(hostname, versions, groups, wrap));
            var strong := Wrapped(Join(", ", groups.strong), wrap);
            Esc !in strong ==> cells[4] == strong
    ensures var cells := CsvCells(HostRow(hostname, versions, groups, wrap));
            var unknown := Wrapped(Join(", ", groups.unknown), wrap);
            Esc !in unknown ==> cells[5] == unknown
  {
    var weak := Wrapped(Join(", ", groups.weak), wrap);
    var strong := Wrapped(Join(", ", groups.strong), wrap);
    if Esc !in weak {
      StripColoured("91", weak);
    }
    if Esc !in strong {
      StripColoured("92", strong);
    }
  }

  /** What `save_to_csv` writes for a scanned host: the hostname (when it
      holds no escape character), "Yes"/"No" for each legacy marker of the
      scanner's text, and for each cipher group exactly the wrapped text
      before it was coloured. */
  lemma CsvCellsOfScan(rules: Rules, wrap: (string, nat) -> seq<string>,
                       hostname: string, output: string, row: Row)
    ensures ScanHost(rules, wrap, hostname, output) == Some(row) && Esc !in hostname ==>
              CsvCells(row)[0] == hostname
    ensures ScanHost(rules, wrap, hostname, output) == Some(row) ==>
              CsvCells(row)[1] == YesNo(IsSubstring(Tls10Marker, output))
    ensures ScanHost(rules, wrap, hostname, output) == Some(row) ==>
              CsvCells(row)[2] == YesNo(IsSubstring(Tls11Marker, output))
    ensures ScanHost(rules, wrap, hostname, output) == Some(row) && KeepsEscFree(wrap) ==>
              var groups := Classify(rules, ExtractCiphers(output));
              && CsvCells(row)[3] == Wrapped(Join(", ", groups.weak), wrap)
              && CsvCells(row)[4] == Wrapped(Join(", ", groups.strong), wrap)
              && CsvCells(row)[5] == Wrapped(Join(", ", groups.unknown), wrap)
  {
    if ScanHost(rules, wrap, hostname, output) == Some(row) {
      var versions := ExtractTlsVersions(output);
      var groups := Classify(rules, ExtractCiphers(output));
      assert row == HostRow(hostname, versions, groups, wrap);
      if Esc !in hostname {
        CsvHostnameCell(hostname, versions, groups, wrap);
      }
      CsvFlagCells(hostname, versions, groups, wrap);
      CsvGroupCells(hostname, versions, groups, wrap);
      if KeepsEscFree(wrap) {
        GroupsEscFree(rules, wrap, output);
      }
    }
  }

  /** The wrapped text of each cipher group holds no escape character. */
  lemma GroupsEscFree(rules: Rules, wrap: (string, nat) -> seq<string>, output: string)
    requires KeepsEscFree(wrap)
    ensures var groups := Classify(rules, ExtractCiphers(output));
            && Esc !in Wrapped(Join(", ", groups.weak), wrap)
            && Esc !in Wrapped(Join(", ", groups.strong), wrap)
            && Esc !in Wrapped(Join(", ", groups.unknown), wrap)
  {
    var ciphers := ExtractCiphers(output);
    var groups := Classify(rules, ciphers);
    forall c | c in groups.weak ensures c in ciphers {
      GroupMembers(rules, ciphers, Weak, c);
    }
    forall c | c in groups.strong ensures c in ciphers {
      GroupMembers(rules, ciphers, Strong, c);
    }
    forall c | c in groups.unknown ensures c in ciphers {
      GroupMembers(rules, ciphers, Unknown, c);
    }
    GroupTextEscFree(wrap, output, groups.weak);
    GroupTextEscFree(wrap, output, groups.strong);
    GroupTextEscFree(wrap, output, groups.unknown);
  }
}
