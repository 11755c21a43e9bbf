/** `extractAndParseJSON`: the generated text carries its JSON between two
    `$$$$` markers. The regular expression `/\$\$\$\$(.*?)\$\$\$\$/s` picks
    the first marker and the nearest marker after it; the body is trimmed as
    `String.prototype.trim` does and handed to a JSON parser, which this
    model takes as an abstract partial function. */
module GeneratedPayload {
  import opened Wrappers

  const Marker: string := "$$$$"

  predicate IsMarkerAt(s: string, k: int) {
    0 <= k && k + |Marker| <= |s| && s[k..k + |Marker|] == Marker
  }

  /** The first marker starting at or after `from`. */
  function FindMarker(s: string, from: nat): (r: Option<nat>)
    ensures r.None? ==> forall k :: from <= k ==> !IsMarkerAt(s, k)
    ensures r.Some? ==> from <= r.value && IsMarkerAt(s, r.value)
    ensures r.Some? ==> forall k :: from <= k < r.value ==> !IsMarkerAt(s, k)
    decreases |s| - from
  {
    if from + |Marker| > |s| then None
    else if s[from..from + |Marker|] == Marker then Some(from)
    else FindMarker(s, from + 1)
  }

  /** The text the regular expression captures, or `None` when it does not
      match (`response` itself may be null). */
  function DelimitedBody(response: Option<string>): (r: Option<string>)
    ensures response.None? ==> r.None?
    ensures response.Some? ==>
              (r.None? <==> !exists i, j :: IsMarkerAt(response.value, i) && IsMarkerAt(response.value, j) && i + |Marker| <= j)
    ensures r.Some? ==> (response.Some? &&
              exists i, j ::
                && IsMarkerAt(response.value, i) && IsMarkerAt(response.value, j) && i + |Marker| <= j
                && r.value == response.value[i + |Marker|..j]
                && (forall k :: 0 <= k < i ==> !IsMarkerAt(response.value, k))
                && (forall k :: i + |Marker| <= k < j ==> !IsMarkerAt(response.value, k)))
  {
    match response
    case None => None
    case Some(s) =>
      match FindMarker(s, 0)
      case None => None
      case Some(i) =>
        match FindMarker(s, i + |Marker|)
        case None =>
          assert forall i', j' :: IsMarkerAt(s, i') && IsMarkerAt(s, j') && i' + |Marker| <= j' ==> i <= i' && false;
          None
        case Some(j) => Some(s[i + |Marker|..j])
  }

  /** WhiteSpace and LineTerminator code points of ECMAScript, the set `trim` removes. */
  predicate IsJsWhitespace(c: char) {
    || c == '\t' || c == '\n' || c == '\U{000B}' || c == '\U{000C}' || c == '\r' || c == ' '
    || c == '\U{00A0}' || c == '\U{1680}' || ('\U{2000}' <= c <= '\U{200A}')
    || c == '\U{2028}' || c == '\U{2029}' || c == '\U{202F}' || c == '\U{205F}'
    || c == '\U{3000}' || c == '\U{FEFF}'
  }

  function TrimStart(s: string): (r: string)
    ensures |r| <= |s| && r == s[|s| - |r|..]
    ensures forall k :: 0 <= k < |s| - |r| ==> IsJsWhitespace(s[k])
    ensures |r| > 0 ==> !IsJsWhitespace(r[0])
  {
    if |s| > 0 && IsJsWhitespace(s[0]) then TrimStart(s[1..]) else s
  }

  function TrimEnd(s: string): (r: string)
    ensures |r| <= |s| && r == s[..|r|]
    ensures forall k :: |r| <= k < |s| ==> IsJsWhitespace(s[k])
    ensures |r| > 0 ==> !IsJsWhitespace(r[|r| - 1])
  {
    if |s| > 0 && IsJsWhitespace(s[|s| - 1]) then TrimEnd(s[..|s| - 1]) else s
  }

  /** `String.prototype.trim`: the infix left after dropping leading and
      trailing whitespace. */
  function Trim(s: string): (r: string)
    ensures exists i, j :: 0 <= i <= j <= |s| && r == s[i..j]
              && (forall k :: 0 <= k < i ==> IsJsWhitespace(s[k]))
              && (forall k :: j <= k < |s| ==> IsJsWhitespace(s[k]))
    ensures |r| > 0 ==> !IsJsWhitespace(r[0]) && !IsJsWhitespace(r[|r| - 1])
  {
    var a := TrimStart(s);
    var r := TrimEnd(a);
    assert r == s[|s| - |a|..|s| - |a| + |r|];
    r
  }

  /** Trimming an already trimmed string changes nothing. */
  lemma TrimIdempotent(s: string)
    ensures Trim(Trim(s)) == Trim(s)
  {
    var t := Trim(s);
    if |t| > 0 {
      assert TrimStart(t) == t;
      assert TrimEnd(t) == t;
    }
  }

  /** `extractAndParseJSON`: `None` when the markers are missing or the
      trimmed body does not parse. */
  function ExtractAndParseJSON<J>(response: Option<string>, parse: string -> Option<J>): (r: Option<J>)
    ensures DelimitedBody(response).None? ==> r.None?
    ensures DelimitedBody(response).Some? ==> r == parse(Trim(DelimitedBody(response).value))
  {
    match DelimitedBody(response)
    case None => None
    case Some(body) => parse(Trim(body))
  }

  /** Wrapping a body in markers and extracting it gives the body back, as
      long as neither the body nor the text before it contains a `$`. */
  lemma {:induction false} ExtractWrapped(prefix: string, body: string, suffix: string)
    requires '$' !in prefix && '$' !in body
    ensures DelimitedBody(Some(prefix + Marker + body + Marker + suffix)) == Some(body)
  {
    var s := prefix + Marker + body + Marker + suffix;
    var i := |prefix|;
    var j := |prefix| + |Marker| + |body|;
    assert s[i..i + |Marker|] == Marker;
    assert s[j..j + |Marker|] == Marker;
    assert s[i + |Marker|..j] == body;
    forall k | 0 <= k < i ensures !IsMarkerAt(s, k) {
      assert s[k] == prefix[k];
    }
    forall k | i + |Marker| <= k < j ensures !IsMarkerAt(s, k) {
      assert s[k] == body[k - i - |Marker|];
    }
    assert IsMarkerAt(s, i) && IsMarkerAt(s, j);
    FirstMarker(s, 0, i);
    FirstMarker(s, i + |Marker|, j);
  }

  /** A marker at `k` with none between `from` and `k` is what `FindMarker` finds. */
  lemma FirstMarker(s: string, from: nat, k: nat)
    requires from <= k && IsMarkerAt(s, k)
    requires forall m :: from <= m < k ==> !IsMarkerAt(s, m)
    ensures FindMarker(s, from) == Some(k)
  {
  }

  /** So the parser sees exactly the trimmed body. */
  lemma ExtractAndParseWrapped<J>(prefix: string, body: string, suffix: string, parse: string -> Option<J>)
    requires '$' !in prefix && '$' !in body
    ensures ExtractAndParseJSON(Some(prefix + Marker + body + Marker + suffix), parse) == parse(Trim(body))
  {
    ExtractWrapped(prefix, body, suffix);
  }

  /** The body between a pair of markers, as the generator is asked to frame it. */
  function Wrap(body: string): string {
    Marker + body + Marker
  }

  lemma ExtractAndParseWrap<J>(body: string, parse: string -> Option<J>)
    requires '$' !in body
    ensures ExtractAndParseJSON(Some(Wrap(body)), parse) == parse(Trim(body))
  {
    WrapBody(body);
  }

  lemma WrapBody(body: string)
    requires '$' !in body
    ensures DelimitedBody(Some(Wrap(body))) == Some(body)
  {
    ExtractWrapped("", body, "");
    WrapIsFramed(body);
  }

  lemma WrapIsFramed(body: string)
    ensures "" + Marker + body + Marker + "" == Wrap(body)
  {
  }
}
