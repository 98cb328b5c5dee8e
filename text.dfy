/** Text normalisation of the recommender: ASCII lower-casing and the
    `clean_text` filter that keeps letters, digits and spaces. */
module Text {

  predicate IsUpper(c: char) { 'A' <= c <= 'Z' }

  /** The characters the filter keeps: the class `[A-Za-z0-9 ]`. */
  predicate IsKept(c: char) {
    'A' <= c <= 'Z' || 'a' <= c <= 'z' || '0' <= c <= '9' || c == ' '
  }

  /** The characters a normalised text is made of: `[a-z0-9 ]`. */
  predicate IsNormal(c: char) {
    'a' <= c <= 'z' || '0' <= c <= '9' || c == ' '
  }

  predicate AllNormal(s: string) {
    forall i :: 0 <= i < |s| ==> IsNormal(s[i])
  }

  /** Lower-cases one character; only the ASCII letters A-Z change. */
  function LowerChar(c: char): (r: char)
    ensures !IsUpper(r)
    ensures IsUpper(c) ==> 'a' <= r <= 'z' && r as int - c as int == 'a' as int - 'A' as int
    ensures !IsUpper(c) ==> r == c
  {
    if IsUpper(c) then (c as int - 'A' as int + 'a' as int) as char else c
  }

  /** `s.lower()`, restricted to the ASCII letters. */
  function Lower(s: string): (r: string)
    ensures |r| == |s|
    ensures forall i :: 0 <= i < |s| ==> r[i] == LowerChar(s[i])
  {
    seq(|s|, i requires 0 <= i < |s| => LowerChar(s[i]))
  }

  /** Deletes every character outside `[A-Za-z0-9 ]`, inserting nothing. */
  function Keep(s: string): string
  {
    if s == [] then []
    else (if IsKept(s[0]) then [s[0]] else []) + Keep(s[1..])
  }

  /** `clean_text`: lower-case first, then delete the disallowed characters. */
  function CleanText(text: string): string
  {
    Keep(Lower(text))
  }

  lemma {:induction false} KeepAppend(a: string, b: string)
    ensures Keep(a + b) == Keep(a) + Keep(b)
  {
    if a == [] {
      assert a + b == b;
    } else {
      var head := if IsKept(a[0]) then [a[0]] else [];
      assert (a + b)[0] == a[0];
      assert (a + b)[1..] == a[1..] + b;
      assert Keep(a + b) == head + Keep(a[1..] + b);
      assert Keep(a) == head + Keep(a[1..]);
      KeepAppend(a[1..], b);
    }
  }

  lemma {:induction false} KeepLength(s: string)
    ensures |Keep(s)| <= |s|
    ensures |Keep(s)| == |s| <==> forall i :: 0 <= i < |s| ==> IsKept(s[i])
  {
    if s != [] {
      KeepLength(s[1..]);
      assert forall i :: 1 <= i < |s| ==> s[i] == s[1..][i - 1];
    }
  }

  lemma {:induction false} KeepOfKept(s: string)
    requires forall i :: 0 <= i < |s| ==> IsKept(s[i])
    ensures Keep(s) == s
  {
    if s != [] {
      assert forall i :: 0 <= i < |s[1..]| ==> s[1..][i] == s[i + 1];
      KeepOfKept(s[1..]);
    }
  }

  lemma LowerAppend(a: string, b: string)
    ensures Lower(a + b) == Lower(a) + Lower(b)
  {
  }

  lemma LowerOfNormal(s: string)
    requires AllNormal(s)
    ensures Lower(s) == s
  {
  }

  /** Every character of the result is a lower-case letter, a digit or a space. */
  lemma CleanTextIsNormal(text: string)
    ensures AllNormal(CleanText(text))
  {
    var l := Lower(text);
    assert forall i :: 0 <= i < |l| && IsKept(l[i]) ==> IsNormal(l[i]);
    KeepOnlyKept(l);
  }

  /** The filter lets through only characters of `s` that it keeps, and
      no upper-case letter when `s` has none. */
  lemma {:induction false} KeepOnlyKept(s: string)
    requires forall i :: 0 <= i < |s| && IsKept(s[i]) ==> IsNormal(s[i])
    ensures AllNormal(Keep(s))
  {
    if s != [] {
      assert forall i :: 0 <= i < |s[1..]| ==> s[1..][i] == s[i + 1];
      KeepOnlyKept(s[1..]);
    }
  }

  /** Normalising twice is the same as normalising once. */
  lemma CleanTextIdempotent(text: string)
    ensures CleanText(CleanText(text)) == CleanText(text)
  {
    var t := CleanText(text);
    CleanTextIsNormal(text);
    LowerOfNormal(t);
    assert forall i :: 0 <= i < |t| ==> IsKept(t[i]);
    KeepOfKept(t);
  }

  /** The texts that normalisation leaves unchanged are exactly those made
      of `[a-z0-9 ]`. */
  lemma CleanTextFixedPoints(text: string)
    ensures CleanText(text) == text <==> AllNormal(text)
  {
    if AllNormal(text) {
      LowerOfNormal(text);
      assert forall i :: 0 <= i < |text| ==> IsKept(text[i]);
      KeepOfKept(text);
    }
    if CleanText(text) == text {
      CleanTextIsNormal(text);
    }
  }

  /** Normalisation works character by character: the result for a
      concatenation is the concatenation of the results, so nothing is
      inserted where a character is deleted. */
  lemma CleanTextAppend(a: string, b: string)
    ensures CleanText(a + b) == CleanText(a) + CleanText(b)
  {
    LowerAppend(a, b);
    KeepAppend(Lower(a), Lower(b));
  }

  /** What happens to a single character: it is lower-cased and kept when
      it is in `[A-Za-z0-9 ]`, and deleted otherwise. */
  lemma CleanTextChar(c: char)
    ensures CleanText([c]) == if IsKept(c) then [LowerChar(c)] else []
  {
    assert Lower([c]) == [LowerChar(c)];
    assert IsKept(LowerChar(c)) == IsKept(c);
    assert Keep([LowerChar(c)]) == (if IsKept(LowerChar(c)) then [LowerChar(c)] else []) + Keep([]);
  }

  /** The result is never longer than the input, and is as long exactly when
      no character is deleted. */
  lemma CleanTextLength(text: string)
    ensures |CleanText(text)| <= |text|
    ensures |CleanText(text)| == |text| <==> forall i :: 0 <= i < |text| ==> IsKept(text[i])
  {
    var l := Lower(text);
    KeepLength(l);
    assert forall i :: 0 <= i < |text| ==> (IsKept(l[i]) <==> IsKept(text[i]));
  }

  /** Punctuation inside a word is deleted without a trace: "It's" becomes "its". */
  lemma CleanTextJoinsAcrossPunctuation()
    ensures CleanText("It's") == "its"
  {
    var a := ['\''] + ['s'];
    assert CleanText(a) == ['s'] by {
      CleanTextAppend(['\''], ['s']);
      CleanTextChar('\'');
      CleanTextChar('s');
    }
    var b := ['t'] + a;
    assert CleanText(b) == ['t', 's'] by {
      CleanTextAppend(['t'], a);
      CleanTextChar('t');
    }
    assert "It's" == ['I'] + b;
    CleanTextAppend(['I'], b);
    CleanTextChar('I');
    assert LowerChar('I') == 'i';
  }
}
