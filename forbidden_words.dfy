/**
 * `containsForbiddenWords`: a name is refused when, lower-cased, it contains
 * one of a fixed list of words anywhere inside it.
 */
module ForbiddenWords {
  import opened Wrappers

  const ForbiddenNames: seq<string> := ["adam", "tuti", "haer", "tut", "haerul", "adams"]

  predicate IsUpperAscii(c: char) {
    'A' <= c <= 'Z'
  }

  /** `toLowerCase` on one character, restricted to the ASCII letters. */
  function LowerChar(c: char): (l: char)
    ensures !IsUpperAscii(l)
    ensures IsUpperAscii(c) ==> l as int == c as int + 32
    ensures !IsUpperAscii(c) ==> l == c
  {
    if IsUpperAscii(c) then (c as int + 32) as char else c
  }

  /** `String.prototype.toLowerCase` with ASCII case folding. */
  function ToLower(s: string): (r: string)
    ensures |r| == |s|
    ensures forall i :: 0 <= i < |s| ==> r[i] == LowerChar(s[i])
  {
    if s == [] then [] else [LowerChar(s[0])] + ToLower(s[1..])
  }

  lemma ToLowerIdempotent(s: string)
    ensures ToLower(ToLower(s)) == ToLower(s)
  {
  }

  /** `word` occurs in `text` starting at position `i`. */
  ghost predicate OccursAt(word: string, text: string, i: int) {
    0 <= i && i + |word| <= |text| && text[i..i + |word|] == word
  }

  /** `text.includes(word)`: a left-to-right search for a contiguous occurrence. */
  function Includes(text: string, word: string): (b: bool)
    ensures b <==> exists i :: OccursAt(word, text, i)
    decreases |text|
  {
    if |word| > |text| then
      assert forall i :: !OccursAt(word, text, i);
      false
    else if text[..|word|] == word then
      assert OccursAt(word, text, 0);
      true
    else
      var rest := Includes(text[1..], word);
      assert forall i :: OccursAt(word, text[1..], i) <==> OccursAt(word, text, i + 1) by {
        forall i ensures OccursAt(word, text[1..], i) <==> OccursAt(word, text, i + 1) {
          if 0 <= i && i + |word| <= |text| - 1 {
            assert text[1..][i..i + |word|] == text[i + 1..i + 1 + |word|];
          }
        }
      }
      assert !OccursAt(word, text, 0);
      assert forall i :: OccursAt(word, text, i) ==> i == 0 || OccursAt(word, text[1..], i - 1);
      rest
  }

  /** Some word of `words` occurs somewhere in `text`. */
  ghost predicate AnyOccurs(words: seq<string>, text: string) {
    exists w, i :: w in words && OccursAt(w, text, i)
  }

  /** `words.some(word => text.includes(word))`. */
  function SomeIncluded(text: string, words: seq<string>): (b: bool)
    ensures b <==> AnyOccurs(words, text)
  {
    if words == [] then false
    else Includes(text, words[0]) || SomeIncluded(text, words[1..])
  }

  /**
   * A missing or empty text is never forbidden; otherwise it is forbidden
   * exactly when one of the listed words occurs in its lower-cased form.
   */
  function ContainsForbiddenWords(text: Option<string>): (b: bool)
    ensures b <==> text.Some? && text.value != [] && AnyOccurs(ForbiddenNames, ToLower(text.value))
  {
    if text.None? || text.value == [] then false
    else SomeIncluded(ToLower(text.value), ForbiddenNames)
  }

  /** Upper and lower case are not told apart. */
  lemma CaseInsensitive(s: string)
    ensures ContainsForbiddenWords(Some(ToLower(s))) == ContainsForbiddenWords(Some(s))
  {
    ToLowerIdempotent(s);
  }

  /** Lower-casing commutes with taking a slice. */
  lemma ToLowerSlice(text: string, lo: int, hi: int)
    requires 0 <= lo <= hi <= |text|
    ensures ToLower(text)[lo..hi] == ToLower(text[lo..hi])
  {
  }

  /**
   * A word that lower-cases to a forbidden one, anywhere inside a longer
   * text, makes the text forbidden.
   */
  lemma ForbiddenInContext(prefix: string, w: string, suffix: string)
    requires ToLower(w) in ForbiddenNames
    ensures ContainsForbiddenWords(Some(prefix + w + suffix))
  {
    var text := prefix + w + suffix;
    var lo, hi := |prefix|, |prefix| + |w|;
    assert text[lo..hi] == w;
    ToLowerSlice(text, lo, hi);
    assert OccursAt(ToLower(w), ToLower(text), lo);
    assert text != [] by {
      assert |ToLower(w)| == |w| > 0;
    }
  }

  /** An occurrence of a word is also one of each of its prefixes. */
  lemma PrefixOccurs(v: string, w: string, text: string, i: int)
    requires |v| <= |w| && w[..|v|] == v && OccursAt(w, text, i)
    ensures OccursAt(v, text, i)
  {
  }

  /** The shorter words "adam", "tut" and "haer" already decide the check. */
  lemma ThreeWordsSuffice(s: string)
    ensures ContainsForbiddenWords(Some(s)) <==> s != [] && AnyOccurs(["adam", "tut", "haer"], ToLower(s))
  {
    var lower := ToLower(s);
    var short: seq<string> := ["adam", "tut", "haer"];
    if AnyOccurs(ForbiddenNames, lower) {
      var w, i :| w in ForbiddenNames && OccursAt(w, lower, i);
      var v := if w == "tuti" || w == "tut" then "tut"
               else if w == "haer" || w == "haerul" then "haer"
               else "adam";
      PrefixOccurs(v, w, lower, i);
      assert v in short;
    }
    if AnyOccurs(short, lower) {
      var v, i :| v in short && OccursAt(v, lower, i);
      assert v in ForbiddenNames;
    }
  }

  lemma ExampleForbidden()
    ensures ContainsForbiddenWords(Some("Adamson"))
  {
    assert ToLower("Adam") == "adam";
    assert "Adamson" == "" + "Adam" + "son";
    ForbiddenInContext("", "Adam", "son");
  }

  lemma ExampleAllowed(name: string)
    requires name == "Budi"
    ensures !ContainsForbiddenWords(Some(name))
    ensures !ContainsForbiddenWords(Some("")) && !ContainsForbiddenWords(None)
  {
    var lower := ToLower(name);
    assert lower == "budi";
    // Every listed word starts with 'a', 't' or 'h'; "budi" has none of them.
    assert forall w :: w in ForbiddenNames ==> |w| > 0 && w[0] in "ath";
    assert forall i :: 0 <= i < |lower| ==> lower[i] !in "ath";
    assert forall w, i :: w in ForbiddenNames && OccursAt(w, lower, i) ==> lower[i] == w[0];
  }
}
