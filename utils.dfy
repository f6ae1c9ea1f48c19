/**
  The display-name validator of the profile-update API (openedx_plugin_api/utils.py).

  A proposed full name is either absent (`None`) or a string of Unicode characters;
  Python's `len` counts code points, as `|s|` does on Dafny's `string`.
  The result is `None` when the function falls off its end (empty or absent name),
  `Some("")` for a valid name, or `Some(message)` for a rejected one.
*/
module Utils {
  import opened Wrappers

  const MaxNameLength: nat := 255
  const LengthMessage: string := "Full name can't be longer than 255 symbols"
  const InvalidNameMessage: string := "Enter a valid name"

  /** The two URL scheme prefixes the pattern `https?://` can begin a match with. */
  const HttpScheme: string := "http://"
  const HttpsScheme: string := "https://"

  // ---------------------------------------------------------------------------
  // Reference definitions: what it means for a name to contain markup or a URL.

  ghost predicate IsMarkupChar(c: char) {
    c == '<' || c == '>'
  }

  /** Some character of `s` is `<` or `>` (a match of the pattern `(<|>)`). */
  ghost predicate HasMarkup(s: string) {
    exists i :: 0 <= i < |s| && IsMarkupChar(s[i])
  }

  /** `pattern` occurs in `s` starting at index `i`. */
  ghost predicate OccursAt(pattern: string, s: string, i: int) {
    0 <= i && i + |pattern| <= |s| && s[i..i + |pattern|] == pattern
  }

  /** `pattern` is a substring of `s`. */
  ghost predicate Occurs(pattern: string, s: string) {
    exists i :: OccursAt(pattern, s, i)
  }

  /**
    `s` holds a match of `https?://(?:[-\w.]|(?:%[\da-fA-F]{2}))*`. The tail is
    starred and may match nothing, so a match exists exactly where one of the two
    scheme prefixes occurs (case-sensitively).
  */
  ghost predicate HasUrl(s: string) {
    Occurs(HttpScheme, s) || Occurs(HttpsScheme, s)
  }

  /** The name is rejected with the generic message. */
  ghost predicate Suspicious(s: string) {
    HasMarkup(s) || HasUrl(s)
  }

  // ---------------------------------------------------------------------------
  // The validator as the source computes it: a scan for the markup pattern, a
  // scan for the URL pattern, and the ordered decision over the two.

  function StartsWith(s: string, prefix: string): bool {
    |prefix| <= |s| && s[..|prefix|] == prefix
  }

  /** `contains_html`: a search for `<` or `>` anywhere in `value`. */
  function ContainsHtml(value: string): (b: bool)
    ensures b <==> HasMarkup(value)
  {
    if value == [] then false
    else if value[0] == '<' || value[0] == '>' then
      assert IsMarkupChar(value[0]);
      true
    else
      var rest := ContainsHtml(value[1..]);
      assert HasMarkup(value) ==> HasMarkup(value[1..]) by {
        if HasMarkup(value) {
          var i :| 0 <= i < |value| && IsMarkupChar(value[i]);
          assert i > 0 && value[1..][i - 1] == value[i];
        }
      }
      assert HasMarkup(value[1..]) ==> HasMarkup(value) by {
        if HasMarkup(value[1..]) {
          var i :| 0 <= i < |value[1..]| && IsMarkupChar(value[1..][i]);
          assert value[i + 1] == value[1..][i];
        }
      }
      rest
  }

  /** A slice of the tail of `s` is the slice of `s` one place further on. */
  lemma TailSlice(s: string, i: nat, n: nat)
    requires i + 1 + n <= |s|
    ensures s[1..][i..i + n] == s[i + 1..i + 1 + n]
  {
    var left, right := s[1..][i..i + n], s[i + 1..i + 1 + n];
    assert forall k :: 0 <= k < n ==> left[k] == right[k];
  }

  /** A non-empty pattern occurs in a non-empty `s` iff it starts `s` or occurs in its tail. */
  lemma OccursUnfold(pattern: string, s: string)
    requires |pattern| > 0 && |s| > 0
    ensures Occurs(pattern, s) <==> OccursAt(pattern, s, 0) || Occurs(pattern, s[1..])
  {
    var n := |pattern|;
    if Occurs(pattern, s) && !OccursAt(pattern, s, 0) {
      var i :| OccursAt(pattern, s, i);
      assert i > 0;
      TailSlice(s, i - 1, n);
      assert OccursAt(pattern, s[1..], i - 1);
    }
    if Occurs(pattern, s[1..]) {
      var i :| OccursAt(pattern, s[1..], i);
      TailSlice(s, i, n);
      assert OccursAt(pattern, s, i + 1);
    }
    if OccursAt(pattern, s, 0) {
      assert Occurs(pattern, s);
    }
  }

  /** Nothing non-empty occurs in the empty string. */
  lemma OccursNotInEmpty(pattern: string)
    requires |pattern| > 0
    ensures !Occurs(pattern, [])
  {
    forall i ensures !OccursAt(pattern, [], i) {
    }
  }

  /** `contains_url`: is there any match of the URL pattern in `value`? */
  function ContainsUrl(value: string): (b: bool)
    ensures b <==> HasUrl(value)
  {
    if value == [] then
      OccursNotInEmpty(HttpScheme);
      OccursNotInEmpty(HttpsScheme);
      false
    else
      OccursUnfold(HttpScheme, value);
      OccursUnfold(HttpsScheme, value);
      StartsWith(value, HttpScheme) || StartsWith(value, HttpsScheme) || ContainsUrl(value[1..])
  }

  /**
    `get_name_validation_error`: the length check first, then markup or URL,
    the two causes folded into one message; an empty or absent name yields no value.
  */
  function GetNameValidationError(name: Option<string>): (r: Option<string>)
    // empty or absent: control falls off the end, the result is None, not ''
    ensures r.None? <==> name.None? || name.value == []
    // the length check comes first and ignores the content
    ensures r == Some(LengthMessage) <==> name.Some? && |name.value| > MaxNameLength
    // within the length bound, markup or a URL is rejected with the generic message
    ensures r == Some(InvalidNameMessage) <==>
              name.Some? && 0 < |name.value| <= MaxNameLength && Suspicious(name.value)
    // everything else is valid
    ensures r == Some("") <==>
              name.Some? && 0 < |name.value| <= MaxNameLength && !Suspicious(name.value)
  {
    match name
    case None => None
    case Some(s) =>
      if s == [] then None
      else if |s| > MaxNameLength then Some(LengthMessage)
      else if ContainsHtml(s) || ContainsUrl(s) then Some(InvalidNameMessage)
      else Some("")
  }

  /** The result is one of exactly four values. */
  lemma ValidationOutcomes(name: Option<string>)
    ensures GetNameValidationError(name) in {None, Some(""), Some(LengthMessage), Some(InvalidNameMessage)}
  {
  }

  /** A present, non-empty name gets a message, and the message is non-empty exactly when the name breaks a rule. */
  lemma RejectedIffNonEmptyMessage(name: Option<string>)
    requires name.Some? && name.value != []
    ensures GetNameValidationError(name).Some?
    ensures |GetNameValidationError(name).value| > 0 <==>
              |name.value| > MaxNameLength || Suspicious(name.value)
  {
  }

  // ---------------------------------------------------------------------------
  // Concrete instances of the rules above.

  lemma MarkupExample()
    ensures GetNameValidationError(Some("<b>hi</b>")) == Some(InvalidNameMessage)
  {
    assert IsMarkupChar("<b>hi</b>"[0]);
  }

  lemma UrlExample()
    ensures GetNameValidationError(Some("visit http://example.com")) == Some(InvalidNameMessage)
  {
    assert OccursAt(HttpScheme, "visit http://example.com", 6);
  }

  /** The bare scheme prefix is already a match: the pattern's tail may be empty. */
  lemma BareSchemeExample()
    ensures GetNameValidationError(Some("https://")) == Some(InvalidNameMessage)
  {
    assert OccursAt(HttpsScheme, "https://", 0);
  }

  /** The match is case-sensitive: an upper-case scheme is not a URL. */
  lemma UpperCaseSchemeExample()
    ensures GetNameValidationError(Some("HTTP://x")) == Some("")
  {
    var s := "HTTP://x";
    assert !ContainsHtml(s);
    assert !ContainsUrl(s);
  }

  /** A long name gets the length message even when it also carries markup or a URL. */
  lemma LengthBeforeContent(s: string)
    requires |s| > MaxNameLength && (HasMarkup(s) || HasUrl(s))
    ensures GetNameValidationError(Some(s)) == Some(LengthMessage)
  {
  }
}
