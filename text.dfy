/**
 * Character-level helpers shared by the frame parser and the CSV log:
 * searching for a delimiter, splitting and joining on commas, and
 * Python's str.strip() restricted to ASCII whitespace.
 */
module Text {

  /** Index of the first occurrence of c in s, or |s| when there is none. */
  function IndexOf(s: string, c: char): (k: nat)
    ensures k <= |s|
    ensures k < |s| ==> s[k] == c
    ensures forall i :: 0 <= i < k ==> s[i] != c
  {
    if s == [] then 0
    else if s[0] == c then 0
    else 1 + IndexOf(s[1..], c)
  }

  /** The comma-separated fields of one CSV record (no quoting). */
  function Split(s: string): (r: seq<string>)
    ensures |r| >= 1
    decreases |s|
  {
    var k := IndexOf(s, ',');
    if k == |s| then [s] else [s[..k]] + Split(s[k + 1..])
  }

  /** The fields separated by commas, as csv.writer writes an unquoted record. */
  function Join(fields: seq<string>): string
  {
    if fields == [] then ""
    else if |fields| == 1 then fields[0]
    else fields[0] + "," + Join(fields[1..])
  }

  predicate NoComma(s: string)
  {
    forall i :: 0 <= i < |s| ==> s[i] != ','
  }

  /** Splitting a joined record gives back its fields, when none contains a comma. */
  lemma {:induction false} SplitJoin(fields: seq<string>)
    requires |fields| >= 1
    requires forall k :: 0 <= k < |fields| ==> NoComma(fields[k])
    ensures Split(Join(fields)) == fields
  {
    var f := fields[0];
    if |fields| == 1 {
      assert Join(fields) == f;
      assert IndexOf(f, ',') == |f|;
    } else {
      var rest := Join(fields[1..]);
      var s := f + "," + rest;
      assert Join(fields) == s;
      assert s[|f|] == ',';
      assert forall i :: 0 <= i < |f| ==> s[i] == f[i];
      var k := IndexOf(s, ',');
      assert k == |f|;
      assert s[..k] == f;
      assert s[k + 1..] == rest;
      SplitJoin(fields[1..]);
      assert Split(s) == [f] + fields[1..];
    }
  }

  /** The whitespace characters of Python's str.strip() within ASCII. */
  predicate IsSpace(c: char)
  {
    c == ' ' || ('\t' <= c <= '\r') || ('\U{1C}' <= c <= '\U{1F}')
  }

  predicate AllSpace(s: string)
  {
    forall i :: 0 <= i < |s| ==> IsSpace(s[i])
  }

  /** Length of the longest all-whitespace prefix. */
  function LeadingSpace(s: string): (n: nat)
    ensures n <= |s| && AllSpace(s[..n])
    ensures n < |s| ==> !IsSpace(s[n])
  {
    if s == [] || !IsSpace(s[0]) then 0
    else
      var n := 1 + LeadingSpace(s[1..]);
      assert s[..n] == [s[0]] + s[1..][..n - 1];
      n
  }

  /** Length of the longest all-whitespace suffix. */
  function TrailingSpace(s: string): (n: nat)
    ensures n <= |s| && AllSpace(s[|s| - n..])
    ensures n < |s| ==> !IsSpace(s[|s| - n - 1])
  {
    if s == [] || !IsSpace(s[|s| - 1]) then 0
    else
      var n := 1 + TrailingSpace(s[..|s| - 1]);
      assert s[|s| - n..] == s[..|s| - 1][|s| - n..] + [s[|s| - 1]];
      n
  }

  /** str.strip(): drop leading and trailing whitespace. */
  function Strip(s: string): string
  {
    var a := LeadingSpace(s);
    if a == |s| then "" else SpaceBounds(s); s[a..|s| - TrailingSpace(s)]
  }

  /** In a text that is not all whitespace the leading and trailing whitespace do not meet. */
  lemma SpaceBounds(s: string)
    requires LeadingSpace(s) < |s|
    ensures LeadingSpace(s) < |s| - TrailingSpace(s)
  {
    SuffixSpace(s, TrailingSpace(s));
  }

  lemma SuffixSpace(s: string, n: nat)
    requires n <= |s| && AllSpace(s[|s| - n..])
    ensures forall j :: |s| - n <= j < |s| ==> IsSpace(s[j])
  {
    forall j | |s| - n <= j < |s| ensures IsSpace(s[j]) {
      assert s[|s| - n..][j - (|s| - n)] == s[j];
    }
  }

  /** What strip() leaves: a text with non-space ends, surrounded in the input by whitespace only. */
  lemma StripSpec(s: string)
    ensures var r := Strip(s);
            && (r == [] || (!IsSpace(r[0]) && !IsSpace(r[|r| - 1])))
            && exists i :: 0 <= i <= |s| - |r| && s[i..i + |r|] == r
                           && AllSpace(s[..i]) && AllSpace(s[i + |r|..])
  {
    var a, r := LeadingSpace(s), Strip(s);
    if a == |s| {
      assert s[..a] == s && s[a..a] == [] && s[a..] == [];
    } else {
      SpaceBounds(s);
      var e := |s| - TrailingSpace(s);
      assert r == s[a..e] && r[0] == s[a] && r[|r| - 1] == s[e - 1];
      assert s[a..a + |r|] == r && s[a + |r|..] == s[e..];
    }
    assert 0 <= a <= |s| - |r| && s[a..a + |r|] == r && AllSpace(s[..a]) && AllSpace(s[a + |r|..]);
  }

  /** The leading whitespace is determined by where the first non-space character is. */
  lemma {:induction false} LeadingSpaceAt(s: string, n: nat)
    requires n <= |s| && AllSpace(s[..n]) && (n < |s| ==> !IsSpace(s[n]))
    ensures LeadingSpace(s) == n
  {
  }

  /** The trailing whitespace is determined by where the last non-space character is. */
  lemma {:induction false} TrailingSpaceAt(s: string, n: nat)
    requires n <= |s| && AllSpace(s[|s| - n..]) && (n < |s| ==> !IsSpace(s[|s| - n - 1]))
    ensures TrailingSpace(s) == n
  {
  }

  /** Strip removes exactly the surrounding whitespace: it recovers the core of a padded text. */
  lemma StripPadded(left: string, core: string, right: string)
    requires AllSpace(left) && AllSpace(right)
    requires core == [] || (!IsSpace(core[0]) && !IsSpace(core[|core| - 1]))
    ensures Strip(left + core + right) == core
  {
    var s := left + core + right;
    if core == [] {
      assert s[..|s|] == left + right;
      LeadingSpaceAt(s, |s|);
    } else {
      assert s[..|left|] == left && s[|left|] == core[0];
      LeadingSpaceAt(s, |left|);
      assert s[|s| - |right|..] == right && s[|s| - |right| - 1] == core[|core| - 1];
      TrailingSpaceAt(s, |right|);
      assert s[|left|..|s| - |right|] == core;
    }
  }

  /** Stripping twice gives the same text as stripping once. */
  lemma StripIdempotent(s: string)
    ensures Strip(Strip(s)) == Strip(s)
  {
    var r := Strip(s);
    StripSpec(s);
    assert [] + r + [] == r;
    StripPadded([], r, []);
  }
}
