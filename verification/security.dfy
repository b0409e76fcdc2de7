/** The input and message-origin checks of the shared security helpers. */
module Security {
  import opened JsStrings
  import opened JsValues

  /** The default of `maxLength`. */
  const DefaultMaxLength: int := 1000

  const ExtensionScheme := "chrome-extension://"

  /** The characters of the class `[\x00-\x1F\x7F]`. */
  predicate IsControl(c: char) {
    c <= '\U{001F}' || c == '\U{007F}'
  }

  predicate NoControls(s: string) {
    forall i :: 0 <= i < |s| ==> !IsControl(s[i])
  }

  /** `s.replace(/\0/g, '')`. */
  function RemoveNul(s: string): (r: string)
    ensures |r| <= |s|
    ensures forall i :: 0 <= i < |r| ==> r[i] != '\0'
  {
    if |s| == 0 then ""
    else (if s[0] == '\0' then "" else [s[0]]) + RemoveNul(s[1..])
  }

  /** `s.replace(/[\x00-\x1F\x7F]/g, '')`: the other characters, in order. */
  function RemoveControls(s: string): (r: string)
    ensures |r| <= |s| && NoControls(r)
    ensures NoControls(s) ==> r == s
  {
    if |s| == 0 then ""
    else (if IsControl(s[0]) then "" else [s[0]]) + RemoveControls(s[1..])
  }

  /** The first replacement is subsumed by the second: NUL is a control character. */
  lemma {:induction false} NulPassRedundant(s: string)
    ensures RemoveControls(RemoveNul(s)) == RemoveControls(s)
  {
    if |s| > 0 {
      NulPassRedundant(s[1..]);
      var head := if s[0] == '\0' then "" else [s[0]];
      assert RemoveNul(s) == head + RemoveNul(s[1..]);
      RemoveControlsConcat(head, RemoveNul(s[1..]));
    }
  }

  lemma {:induction false} RemoveControlsConcat(a: string, b: string)
    ensures RemoveControls(a + b) == RemoveControls(a) + RemoveControls(b)
  {
    if |a| == 0 {
      assert a + b == b;
    } else {
      assert (a + b)[1..] == a[1..] + b;
      RemoveControlsConcat(a[1..], b);
    }
  }

  /** Every character of the trimmed string is one of the string's. */
  lemma TrimKeeps(s: string)
    ensures |TrimStart(s)| <= |s|
    ensures var k := |s| - |TrimStart(s)|;
      forall i :: 0 <= i < |Trim(s)| ==> k + i < |s| && Trim(s)[i] == s[k + i]
  {
    var t := TrimStart(s);
    TrimStartShape(s);
    TrimEndShape(t);
    assert t == s[|s| - |t|..];
    assert Trim(s) == t[..|Trim(s)|];
  }

  /** The text `sanitizeInput` keeps before truncation: control characters removed, then
      surrounding white space. */
  function Cleaned(s: string): string {
    Trim(RemoveControls(RemoveNul(s)))
  }

  /** `sanitizeInput(input, maxLength)`. A negative `maxLength` makes `substring` return "". */
  function SanitizeInput(input: Value, maxLength: int): (r: string)
    ensures !input.Str? ==> r == ""
    ensures |r| <= if maxLength < 0 then 0 else maxLength
    ensures NoControls(r)
    ensures input.Str? ==> StartsWith(Cleaned(input.s), r)
    ensures input.Str? && |Cleaned(input.s)| <= maxLength ==> r == Cleaned(input.s)
  {
    if !input.Str? then ""
    else
      var sanitized := Cleaned(input.s);
      CleanedHasNoControls(input.s);
      if |sanitized| > maxLength then (if maxLength <= 0 then "" else sanitized[..maxLength])
      else sanitized
  }

  /** `sanitizeInput(input)`, with `maxLength` left at its default. */
  function SanitizeInputDefault(input: Value): (r: string)
    ensures |r| <= DefaultMaxLength && NoControls(r)
    ensures input.Str? && |Cleaned(input.s)| <= DefaultMaxLength ==> r == Cleaned(input.s)
    ensures input.Str? && |Cleaned(input.s)| > DefaultMaxLength ==> r == Cleaned(input.s)[..DefaultMaxLength]
  {
    SanitizeInput(input, DefaultMaxLength)
  }

  lemma CleanedHasNoControls(s: string)
    ensures NoControls(Cleaned(s))
  {
    TrimKeeps(RemoveControls(RemoveNul(s)));
  }

  /** A string without control characters or surrounding white space that fits is returned
      unchanged. */
  lemma SanitizeFixedPoint(s: string, maxLength: int)
    requires NoControls(s) && (s == [] || (!IsWhitespace(s[0]) && !IsWhitespace(s[|s| - 1])))
    requires |s| <= maxLength
    ensures SanitizeInput(Str(s), maxLength) == s
  {
    NulPassRedundant(s);
    TrimUnchanged(s);
  }

  /** Sanitizing twice only removes the white space that truncation left at the end. */
  lemma SanitizeTwice(s: string, maxLength: int)
    ensures var once := SanitizeInput(Str(s), maxLength);
      SanitizeInput(Str(once), maxLength) == TrimEnd(once)
  {
    var once := SanitizeInput(Str(s), maxLength);
    var c := Cleaned(s);
    TrimShape(RemoveControls(RemoveNul(s)));
    TrimEndShape(once);
    assert once == c[..|once|];
    NulPassRedundant(once);
    assert RemoveControls(once) == once;
    if |once| > 0 {
      assert !IsWhitespace(once[0]);
    }
    assert TrimStart(once) == once;
  }

  /** A clean string longer than `maxLength` is cut to its first `maxLength` characters. */
  lemma SanitizeCuts(s: string, maxLength: int)
    requires NoControls(s) && (s == [] || (!IsWhitespace(s[0]) && !IsWhitespace(s[|s| - 1])))
    requires 0 < maxLength < |s|
    ensures SanitizeInput(Str(s), maxLength) == s[..maxLength]
  {
    NulPassRedundant(s);
    TrimUnchanged(s);
  }

  /** So sanitizing is not idempotent: when the cut ends in a blank, the first pass keeps
      the blank and the second removes it. */
  lemma SanitizeNotIdempotent(s: string, maxLength: nat)
    requires NoControls(s) && (s == [] || (!IsWhitespace(s[0]) && !IsWhitespace(s[|s| - 1])))
    requires 0 < maxLength < |s| && s[maxLength - 1] == ' '
    ensures SanitizeInput(Str(s), maxLength) == s[..maxLength]
    ensures |SanitizeInput(Str(SanitizeInput(Str(s), maxLength)), maxLength)| < maxLength
  {
    SanitizeCuts(s, maxLength);
    var once := SanitizeInput(Str(s), maxLength);
    SanitizeTwice(s, maxLength);
    TrimEndShape(once[..maxLength - 1]);
  }

  /** The fields of a `message` event that the origin check reads. */
  datatype MessageEvent = MessageEvent(sourceIsWindow: bool, origin: Option<string>)

  /** `isValidMessageOrigin(event)`. */
  function IsValidMessageOrigin(event: MessageEvent): (ok: bool)
    ensures ok <==> event.sourceIsWindow
                    || (event.origin.Some? && event.origin.value != "" && StartsWith(event.origin.value, ExtensionScheme))
  {
    if event.sourceIsWindow then true
    else if event.origin.Some? && event.origin.value != "" then StartsWith(event.origin.value, ExtensionScheme)
    else false
  }

  /** Messages from another window are accepted only from extension pages: a web origin is
      refused, whatever its path. */
  lemma WebOriginRefused(rest: string)
    ensures !IsValidMessageOrigin(MessageEvent(false, Some("https://" + rest)))
    ensures IsValidMessageOrigin(MessageEvent(false, Some(ExtensionScheme + rest)))
  {
    assert ("https://" + rest)[1] == 't' != ExtensionScheme[1];
    assert (ExtensionScheme + rest)[..|ExtensionScheme|] == ExtensionScheme;
  }
}
