/**
 The failure-message normaliser that every scenario of tests/sample-test.py
 applies, inline, to the text of a caught exception before reporting it:
 keep the text before the first "Call log:", turn newlines into spaces,
 colons into "=>", and delete single quotes, in that order.
 */
module ErrorMessage {
  import opened Strings

  /** The marker that introduces the automation library's verbose call log. */
  const Marker: string := "Call log:"

  /** The normalised failure message: cut at the first marker, then newline
      to space, colon to "=>", single quote deleted. */
  function Normalize(raw: string): (r: string)
    ensures '\n' !in r
    ensures ':' !in r
    ensures '\'' !in r
    ensures forall x :: x in r ==> x in raw || x in " =>"
  {
    DropChar(ReplaceChar(ReplaceChar(PrefixBefore(raw, Marker), '\n', " "), ':', "=>"), '\'')
  }

  /** The text kept before the marker, on which the replacements act. */
  function Kept(raw: string): (p: string)
    ensures p <= raw
    ensures forall i: nat :: i < |p| ==> !MatchAt(raw, Marker, i)
    ensures Contains(raw, Marker) ==> MatchAt(raw, Marker, |p|)
    ensures !Contains(raw, Marker) ==> p == raw
  {
    PrefixBefore(raw, Marker)
  }

  /** Output length: newline-to-space keeps it, each colon adds one (it
      becomes two characters), each single quote removes one. */
  lemma NormalizeLength(raw: string)
    ensures var p := Kept(raw);
            |Normalize(raw)| == |p| + Count(p, ':') - Count(p, '\'')
  {
    var p := Kept(raw);
    NewlineStep(p);
    ColonStep(ReplaceChar(p, '\n', " "));
  }

  /** The newline step keeps the length and the colon and quote counts. */
  lemma NewlineStep(p: string)
    ensures var q := ReplaceChar(p, '\n', " ");
            |q| == |p| && Count(q, ':') == Count(p, ':') && Count(q, '\'') == Count(p, '\'')
  {
    ReplaceCharLength(p, '\n', " ");
    ReplaceCharCount(p, '\n', " ", ':');
    ReplaceCharCount(p, '\n', " ", '\'');
  }

  /** The colon step adds one character per colon and keeps the quote count. */
  lemma ColonStep(p: string)
    ensures var q := ReplaceChar(p, ':', "=>");
            |q| == |p| + Count(p, ':') && Count(q, '\'') == Count(p, '\'')
  {
    ReplaceCharLength(p, ':', "=>");
    ReplaceCharCount(p, ':', "=>", '\'');
  }

  /** The split happens on the raw text before any replacement: once the
      marker has been seen, the rest of the input cannot change the result. */
  lemma NormalizeIgnoresTrailer(raw: string, other: string)
    requires Contains(raw, Marker)
    requires raw[..|Kept(raw)| + |Marker|] <= other
    ensures Normalize(other) == Normalize(raw)
  {
    PrefixBeforeIgnoresTrailer(raw, other, Marker);
  }

  /** Only the text before the marker matters. */
  lemma NormalizeKeptOnly(raw: string)
    ensures Normalize(Kept(raw)) == Normalize(raw)
  {
    PrefixBeforeIdempotent(raw, Marker);
  }

  /** The normalised text never holds the marker, since the marker ends in a
      colon. */
  lemma NormalizeNoMarker(raw: string)
    ensures !Contains(Normalize(raw), Marker)
  {
    var r := Normalize(raw);
    if Contains(r, Marker) {
      var i: nat :| i <= |r| && MatchAt(r, Marker, i);
      MatchAtLastChar(r, Marker, i);
      assert false;
    }
  }

  /** Text with no newline, colon or single quote (and therefore no marker)
      passes through unchanged. */
  lemma NormalizeClean(s: string)
    requires '\n' !in s && ':' !in s && '\'' !in s
    ensures Normalize(s) == s
  {
    if Contains(s, Marker) {
      var i: nat :| i <= |s| && MatchAt(s, Marker, i);
      MatchAtLastChar(s, Marker, i);
      assert false;
    }
  }

  /** Normalising twice is the same as normalising once. */
  lemma NormalizeIdempotent(raw: string)
    ensures Normalize(Normalize(raw)) == Normalize(raw)
  {
    NormalizeClean(Normalize(raw));
  }

  /** When no marker can start inside the text `p` before a marker, exactly
      `p` is kept, whatever follows the marker. The marker's only colon is
      its last character and its only 'C' its first, so a `p` lacking either
      character qualifies. */
  lemma KeptBeforeMarker(p: string, rest: string)
    requires ':' !in p || 'C' !in p
    ensures Kept(p + Marker + rest) == p
  {
    var s := p + Marker + rest;
    assert MatchAt(s, Marker, |p|) by {
      assert s[|p|..|p| + |Marker|] == Marker;
    }
    forall i: nat | i < |p| ensures !MatchAt(s, Marker, i) {
      if ':' !in p {
        var j := i + |Marker| - 1;
        if j < |p| {
          assert s[j] == p[j];
        } else {
          assert s[j] == Marker[j - |p|];
        }
        assert s[j] != Marker[|Marker| - 1];
      } else {
        assert s[i] == p[i];
        assert s[i] != Marker[0];
      }
    }
  }

  /** A clean line followed by a line break and the call log normalises to
      that line and one trailing space. */
  lemma NormalizeLineThenLog(line: string, log: string)
    requires '\n' !in line && ':' !in line && '\'' !in line
    ensures Normalize(line + "\n" + Marker + log) == line + " "
  {
    assert line + "\n" + Marker + log == (line + "\n") + Marker + log;
    KeptBeforeMarker(line + "\n", log);
    ReplaceCharConcat(line, "\n", '\n', " ");
    NormalizeClean(line + " ");
  }

  /** A typical timeout message: the call log is dropped, and the newline
      just before the marker survives as a trailing space. */
  lemma NormalizeTimeoutExample()
    ensures Normalize("Timeout 5000ms exceeded." + "\n" + "Call log:" + "\n  - waiting for selector\n")
            == "Timeout 5000ms exceeded." + " "
  {
    NormalizeLineThenLog("Timeout 5000ms exceeded.", "\n  - waiting for selector\n");
  }

  /** A line `a: b` before the call log: the colon turns into "=>" in place
      and the newline into a trailing space. */
  lemma NormalizeFieldThenLog(a: string, b: string, log: string)
    requires '\n' !in a && ':' !in a && '\'' !in a && 'C' !in a
    requires '\n' !in b && ':' !in b && '\'' !in b && 'C' !in b
    ensures Normalize(a + ":" + b + "\n" + Marker + log) == a + "=>" + b + " "
  {
    var raw := a + ":" + b + "\n" + Marker + log;
    var line := a + ":" + b + "\n";
    FieldLineKept(a, b, log);
    FieldNewlineStep(a, b);
    FieldColonStep(a, b);
    var p2 := a + "=>" + b + " ";
    assert '\'' !in p2 by {
      assert forall x :: x in p2 ==> x in a || x in "=>" || x in b || x == ' ';
    }
    calc {
      Normalize(raw);
      DropChar(ReplaceChar(ReplaceChar(line, '\n', " "), ':', "=>"), '\'');
      DropChar(p2, '\'');
      p2;
    }
  }

  /** For `a: b` on a line of its own, the whole line is kept. */
  lemma FieldLineKept(a: string, b: string, log: string)
    requires 'C' !in a && 'C' !in b
    ensures Kept(a + ":" + b + "\n" + Marker + log) == a + ":" + b + "\n"
  {
    var line := a + ":" + b + "\n";
    assert a + ":" + b + "\n" + Marker + log == line + Marker + log;
    assert 'C' !in line by {
      assert forall x :: x in line ==> x in a || x == ':' || x in b || x == '\n';
    }
    KeptBeforeMarker(line, log);
  }

  /** The newline step on `a: b` plus a newline changes only the newline. */
  lemma FieldNewlineStep(a: string, b: string)
    requires '\n' !in a && '\n' !in b
    ensures ReplaceChar(a + ":" + b + "\n", '\n', " ") == a + ":" + b + " "
  {
    ReplaceCharAt(a + ":" + b, '\n', [], '\n', " ");
    ReplaceCharConcat(a + ":", b, '\n', " ");
    ReplaceCharConcat(a, ":", '\n', " ");
    assert a + ":" + b + "\n" == a + ":" + b + ['\n'] + [];
  }

  /** The colon step on `a: b ` changes only the one colon, in place. */
  lemma FieldColonStep(a: string, b: string)
    requires ':' !in a && ':' !in b
    ensures ReplaceChar(a + ":" + b + " ", ':', "=>") == a + "=>" + b + " "
  {
    ReplaceCharAt(a, ':', b + " ", ':', "=>");
    assert a + ":" + b + " " == a + [':'] + (b + " ");
    assert ':' !in b + " ";
    assert a + "=>" + (b + " ") == a + "=>" + b + " ";
  }

  /** A locator timeout whose first line names the failing call. */
  lemma NormalizeLocatorTimeoutExample()
    ensures Normalize("Page.wait_for_selector" + ":" + " Timeout 10000ms exceeded." + "\n"
                      + "Call log:" + "\n  - waiting for locator\n")
            == "Page.wait_for_selector" + "=>" + " Timeout 10000ms exceeded." + " "
  {
    LocatorTimeoutPartsClean();
    NormalizeFieldThenLog("Page.wait_for_selector", " Timeout 10000ms exceeded.",
                          "\n  - waiting for locator\n");
  }

  /** Neither half of the example's first line holds a character the
      normaliser rewrites, nor the marker's first character. */
  lemma LocatorTimeoutPartsClean()
    ensures forall x :: x in "Page.wait_for_selector" ==> x !in "\n:'C"
    ensures forall x :: x in " Timeout 10000ms exceeded." ==> x !in "\n:'C"
  {
  }
}
