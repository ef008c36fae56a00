/** The page-separator protocol shared by the browser client and the
    translation route: the client joins the markdown of all pages with a
    fixed separator into one request body, and the route splits that body
    back into pages on the same separator. */
module Protocol {
  import opened JsText

  /** The separator both sides use (a horizontal rule between blank lines). */
  const PageSeparator: string := "\n\n---\n\n"

  /** The first occurrence of `sep` in `p + sep` is the appended one. For
      every page but the last this is what a join-then-split round trip
      needs: no occurrence of `sep` starts inside `p`, not even one that
      would be completed by the separator that follows it. */
  predicate Delimited(p: string, sep: string) {
    IndexOf(p + sep, sep, 0) == Some(|p|)
  }

  /** A piece that contains the separator is not delimited. */
  lemma DelimitedIsSeparatorFree(p: string, sep: string)
    requires sep != ""
    ensures Contains(p, sep) ==> !Delimited(p, sep)
  {
    if Contains(p, sep) {
      var j := IndexOf(p, sep, 0).value;
      OccursInPrefix(p + sep, |p|, sep, j);
      assert (p + sep)[..|p|] == p;
    }
  }

  /** Split inverts join: when every page but the last is delimited and the
      last contains no separator, splitting the joined text gives back
      exactly the pages, in order. */
  lemma {:induction false} SplitJoin(ps: seq<string>, sep: string)
    requires sep != "" && |ps| >= 1
    requires forall i :: 0 <= i < |ps| - 1 ==> Delimited(ps[i], sep)
    requires !Contains(ps[|ps| - 1], sep)
    ensures Split(Join(ps, sep), sep) == ps
    decreases |ps|
  {
    if |ps| > 1 {
      var p, rest := ps[0], ps[1..];
      var tail := Join(rest, sep);
      var s := p + sep + tail;
      assert Join(ps, sep) == s;
      assert s[|p|..|p| + |sep|] == sep;
      forall j: nat | j < |p|
        ensures !OccursAt(s, sep, j)
      {
        assert s[..|p| + |sep|] == p + sep;
        if j + |sep| <= |p| + |sep| {
          OccursInPrefix(s, |p| + |sep|, sep, j);
        }
      }
      IndexOfLeast(s, sep, |p|);
      assert s[..|p|] == p;
      assert s[|p| + |sep|..] == tail;
      SplitJoin(rest, sep);
    }
  }

  /** For the page separator, a page is delimited exactly when it does not
      contain the separator and does not end with the first five or the
      first six characters of it. */
  lemma PageDelimitedIff(p: string)
    ensures Delimited(p, PageSeparator) <==>
      !Contains(p, PageSeparator) && !EndsWith(p, "\n\n---") && !EndsWith(p, "\n\n---\n")
  {
    if Delimited(p, PageSeparator) {
      DelimitedPageShape(p);
    } else if !Contains(p, PageSeparator) && !EndsWith(p, "\n\n---") && !EndsWith(p, "\n\n---\n") {
      forall j: nat | j < |p|
        ensures !OccursAt(p + PageSeparator, PageSeparator, j)
      {
        NoEarlyOccurrence(p, j);
      }
      var s := p + PageSeparator;
      assert s[|p|..|p| + |PageSeparator|] == PageSeparator;
      IndexOfLeast(s, PageSeparator, |p|);
    }
  }

  /** A delimited page ends with neither self-overlapping prefix of the
      separator: either would complete an earlier match. */
  lemma DelimitedPageShape(p: string)
    requires Delimited(p, PageSeparator)
    ensures !Contains(p, PageSeparator)
    ensures !EndsWith(p, "\n\n---") && !EndsWith(p, "\n\n---\n")
  {
    DelimitedIsSeparatorFree(p, PageSeparator);
    OverlapCompletes(p, 5);
    OverlapCompletes(p, 6);
  }

  /** A page ending with the first `m` characters of the separator, where the
      last `7 - m` of them repeat its first `7 - m`, has an occurrence starting
      `m` characters before its end. */
  lemma OverlapCompletes(p: string, m: nat)
    requires m == 5 || m == 6
    ensures EndsWith(p, PageSeparator[..m]) ==> !Delimited(p, PageSeparator)
  {
    if EndsWith(p, PageSeparator[..m]) {
      var sep := PageSeparator;
      var s := p + sep;
      var j := |p| - m;
      assert s[j..j + 7] == p[j..] + sep[..7 - m];
      assert sep[..m] + sep[..7 - m] == sep;
      assert OccursAt(s, sep, j);
    }
  }

  /** The case analysis behind `PageDelimitedIff`: no occurrence starts
      inside a page that neither contains the separator nor ends with one of
      its two self-overlapping prefixes. */
  lemma NoEarlyOccurrence(p: string, j: nat)
    requires j < |p|
    requires !Contains(p, PageSeparator)
    requires !EndsWith(p, "\n\n---") && !EndsWith(p, "\n\n---\n")
    ensures !OccursAt(p + PageSeparator, PageSeparator, j)
  {
    var s := p + PageSeparator;
    if j + 7 <= |p| {
      OccursInPrefix(s, |p|, PageSeparator, j);
      assert s[..|p|] == p;
    } else if |p| - j <= 4 {
      ShortOverlap(p, j);
    } else {
      LongOverlap(p, j);
    }
  }

  /** A window that overlaps the page by one to four characters puts a
      newline of the appended separator where the separator has a dash. */
  lemma ShortOverlap(p: string, j: nat)
    requires j < |p| < j + 7 && |p| - j <= 4
    ensures !OccursAt(p + PageSeparator, PageSeparator, j)
  {
    var sep := PageSeparator;
    var s := p + sep;
    var m := |p| - j;
    var k := if m == 1 then 2 else m;
    assert s[j + k] == sep[k - m];
    assert sep[k - m] != sep[k];
    assert s[j..j + 7][k] != sep[k];
  }

  /** A window that overlaps the page by five or six characters matches only
      if the page ends with that many leading characters of the separator. */
  lemma LongOverlap(p: string, j: nat)
    requires j < |p| < j + 7 && |p| - j >= 5
    requires !EndsWith(p, "\n\n---") && !EndsWith(p, "\n\n---\n")
    ensures !OccursAt(p + PageSeparator, PageSeparator, j)
  {
    var sep := PageSeparator;
    var s := p + sep;
    var m := |p| - j;
    assert s[j..j + 7][..m] == p[j..];
    assert sep[..m] == (if m == 5 then "\n\n---" else "\n\n---\n");
    assert p[j..] != sep[..m];
  }

  /** Leaving the separator out of every page is not enough for the round
      trip: a page that ends with a horizontal rule after a blank line is cut
      too early, and the next page receives the rule. */
  lemma SeparatorFreeIsNotEnough()
    ensures !Contains("a\n\n---", PageSeparator) && !Contains("b", PageSeparator)
    ensures Split(Join(["a\n\n---", "b"], PageSeparator), PageSeparator) == ["a", "---\n\nb"]
  {
    var sep := PageSeparator;
    var s := "a\n\n---" + sep + "b";
    assert Join(["a\n\n---", "b"], sep) == s;
    assert s[1..8] == sep;
    assert !OccursAt(s, sep, 0) by { assert s[0] != sep[0]; }
    IndexOfLeast(s, sep, 1);
    var rest := s[8..];
    assert rest == "---\n\nb";
    assert !Contains(rest, sep);
    assert Split(rest, sep) == [rest];
    assert s[..1] == "a";
    assert Split(s, sep) == [s[..1]] + Split(rest, sep);
  }
}
