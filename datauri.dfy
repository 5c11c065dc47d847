/** Payload extraction from a data URI `data:<mime>;base64,<payload>`. Every validator keeps
    `url.split(',')[-1]`, the text after the LAST comma. A base64 payload never holds a comma, so
    for a URI built around one this gives back exactly the payload, whatever the media type. */
module DataUri {
  import opened Wrappers
  import opened Text
  import Base64

  /** The URI the OpenRouter request builds for an input image, and the shape of the URIs the
      models return. */
  function MakeUri(mime: string, payload: string): string
  {
    "data:" + mime + ";base64" + [','] + payload
  }

  /** `url.split(',', 1)[-1]`: the text after the FIRST comma, where RFC 2397 (section 3) ends a
      data URI's header, for comparison. */
  function AfterFirst(s: string, sep: char): (r: string)
    ensures sep !in s ==> r == s
    ensures sep in s ==> s == BeforeFirst(s, sep) + [sep] + r
  {
    if sep !in s then s else s[|BeforeFirst(s, sep)| + 1..]
  }

  /** Extraction inverts encoding: the payload of a URI around `Encode(bs)` is that encoding,
      and decoding it gives back `bs`. */
  lemma ExtractEncoded(mime: string, bs: seq<Base64.byte>)
    ensures AfterLast(MakeUri(mime, Base64.Encode(bs)), ',') == Base64.Encode(bs)
    ensures Base64.Decode(AfterLast(MakeUri(mime, Base64.Encode(bs)), ',')) == Some(bs)
  {
    Base64.EncodeAlphabet(bs);
    AfterLastOfJoin("data:" + mime + ";base64", ',', Base64.Encode(bs));
    Base64.DecodeEncode(bs);
  }

  /** With one comma in the URI the first and the last comma agree. */
  lemma OneCommaAgrees(a: string, b: string)
    requires ',' !in a && ',' !in b
    ensures AfterFirst(a + [','] + b, ',') == b == AfterLast(a + [','] + b, ',')
  {
    var s := a + [','] + b;
    BeforeFirstOfJoin(a, ',', b);
    AfterLastOfJoin(a, ',', b);
    assert s[|a| + 1..] == b;
  }

  /** With a comma in front of the last one they disagree: the first-comma reading keeps part of
      the header, the last-comma reading only the payload. */
  lemma TwoCommasDisagree(a: string, m: string, b: string)
    requires ',' !in a && ',' !in b
    ensures AfterLast(a + [','] + m + [','] + b, ',') == b
    ensures AfterFirst(a + [','] + m + [','] + b, ',') == m + [','] + b
  {
    AfterLastOfJoin(a + [','] + m, ',', b);
    Regroup(a, m, b);
    OneSplit(a, m + [','] + b);
  }

  /** A solver hint only: the same URI, grouped around its first comma. Kept apart because in
      `TwoCommasDisagree` this regrouping is expensive to prove. */
  lemma Regroup(a: string, m: string, b: string)
    ensures a + [','] + m + [','] + b == a + [','] + (m + [','] + b)
  {
  }

  /** The first-comma reading when no comma precedes the cut. */
  lemma OneSplit(a: string, t: string)
    requires ',' !in a
    ensures AfterFirst(a + [','] + t, ',') == t
  {
    var s := a + [','] + t;
    BeforeFirstOfJoin(a, ',', t);
    assert s[|a| + 1..] == t;
  }

  /** `data:image/png;base64,QUJD` gives `QUJD`: the payload after the URI's only comma. */
  lemma PngExample()
    ensures AfterLast("data:image/png;base64,QUJD", ',') == "QUJD"
  {
    assert "data:image/png;base64,QUJD" == "data:image/png;base64" + [','] + "QUJD";
    AfterLastOfJoin("data:image/png;base64", ',', "QUJD");
  }

  /** Extraction is idempotent: what it returns has no comma left to cut at. */
  lemma ExtractIdempotent(url: string)
    ensures AfterLast(AfterLast(url, ','), ',') == AfterLast(url, ',')
  {
  }
}
