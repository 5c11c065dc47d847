/** `validate_and_extract_base64` for a Google GenAI SDK response, as in
    gemini2.5_image_generation/vertexai_image_editing_api.py and
    gemini2.5_image_generation/vertexai_image_generation_api.py: guard checks down to
    `candidates[0].content.parts`, then one segment per part. The policy is fail-fast. */
module GenAI {
  import opened Wrappers
  import opened Segments
  import Base64

  /** An SDK attribute: not there at all (`hasattr` is false), there and `None`, or a value. */
  datatype Field<T> = Absent | Null | Value(v: T)

  datatype GenerateResponse = GenerateResponse(candidates: Field<seq<Candidate>>)
  datatype Candidate = Candidate(content: Field<Content>)
  datatype Content = Content(parts: Field<seq<Part>>)
  datatype Part = Part(text: Field<string>, inlineData: Field<Blob>)
  datatype Blob = Blob(data: Field<BlobData>)

  /** `inline_data.data`: text that is already base 64, or raw bytes. */
  datatype BlobData = Base64Text(s: string) | RawBytes(bytes: seq<Base64.byte>)

  /** `hasattr(part, 'text') and part.text`. */
  predicate HasText(p: Part)
  {
    p.text.Value? && p.text.v != ""
  }

  /** The result of the loop body for `parts[idx]`. A `Blob` object is always truthy; reading a
      missing `data` attribute or encoding `None` is a runtime error. */
  function PartSegment(idx: nat, p: Part): Result<seq<Segment>, Error>
  {
    if HasText(p) then Ok([Text(p.text.v)])
    else if p.inlineData.Value? then
      match p.inlineData.v.data
      case Value(Base64Text(s)) => Ok([Image(s)])
      case Value(RawBytes(bs)) => Ok([Image(Base64.Encode(bs))])
      case _ => Err(Crash)
    else Err(UnexpectedPart(idx))
  }

  /** The guard checks: the parts of the first candidate, or the error they raise. Python's
      `hasattr(None, 'parts')` is false, so a `None` content reports missing parts. */
  function FirstCandidateParts(response: GenerateResponse): Result<seq<Part>, Error>
  {
    match response.candidates
    case Absent => Err(NoCandidates)
    case Null => Err(CandidatesEmpty)
    case Value(cs) =>
      if cs == [] then Err(CandidatesEmpty)
      else
        match cs[0].content
        case Absent => Err(NoCandidateContent)
        case Null => Err(NoParts)
        case Value(c) =>
          match c.parts
          case Absent => Err(NoParts)
          case Null => Err(PartsEmpty)
          case Value(ps) => if ps == [] then Err(PartsEmpty) else Ok(ps)
  }

  /** What the function returns or raises. */
  function Normalize(response: GenerateResponse): Result<seq<Segment>, Error>
  {
    match FirstCandidateParts(response)
    case Err(e) => Err(e)
    case Ok(ps) => Gather(PartSegment, ps, |ps|)
  }

  /** `validate_and_extract_base64`, guards and loop. */
  method ValidateAndExtract(response: GenerateResponse) returns (r: Result<seq<Segment>, Error>)
    ensures r == Normalize(response)
  {
    if response.candidates.Absent? {
      return Err(NoCandidates);
    }
    if response.candidates.Null? || response.candidates.v == [] {
      return Err(CandidatesEmpty);
    }
    var candidate := response.candidates.v[0];
    if candidate.content.Absent? {
      return Err(NoCandidateContent);
    }
    if candidate.content.Null? || candidate.content.v.parts.Absent? {
      return Err(NoParts);
    }
    var content := candidate.content.v;
    if content.parts.Null? || content.parts.v == [] {
      return Err(PartsEmpty);
    }
    var parts := content.parts.v;
    var extracted: seq<Segment> := [];
    for idx := 0 to |parts|
      invariant Gather(PartSegment, parts, idx) == Ok(extracted)
    {
      var part := parts[idx];
      if part.text.Value? && part.text.v != "" {
        extracted := extracted + [Text(part.text.v)];
      } else if part.inlineData.Value? {
        var data := part.inlineData.v.data;
        if !data.Value? {
          r := Err(Crash);
          GatherErrorSticks(PartSegment, parts, idx + 1, |parts|);
          return;
        }
        var payload;
        match data.v {
          case Base64Text(s) => payload := s;
          case RawBytes(bs) => payload := Base64.Encode(bs);
        }
        extracted := extracted + [Image(payload)];
      } else {
        r := Err(UnexpectedPart(idx));
        GatherErrorSticks(PartSegment, parts, idx + 1, |parts|);
        return;
      }
    }
    return Ok(extracted);
  }

  /** Each guard is an error: no `candidates`, `None` or empty candidates, a first candidate
      without `content`, a content without `parts`, `None` or empty parts. Past the guards the
      call succeeds exactly when every part has non-empty text or inline data with a `data`
      value. */
  lemma NormalizeGuards(response: GenerateResponse)
    ensures response.candidates.Absent? ==> Normalize(response) == Err(NoCandidates)
    ensures response.candidates.Null? || response.candidates == Value([]) ==> Normalize(response) == Err(CandidatesEmpty)
    ensures response.candidates.Value? && response.candidates.v != [] && response.candidates.v[0].content.Absent?
            ==> Normalize(response) == Err(NoCandidateContent)
    ensures response.candidates.Value? && response.candidates.v != [] && response.candidates.v[0].content.Null?
            ==> Normalize(response) == Err(NoParts)
    ensures response.candidates.Value? && response.candidates.v != [] && response.candidates.v[0].content.Value?
            && response.candidates.v[0].content.v.parts.Absent?
            ==> Normalize(response) == Err(NoParts)
    ensures response.candidates.Value? && response.candidates.v != [] && response.candidates.v[0].content.Value?
            && (response.candidates.v[0].content.v.parts.Null? || response.candidates.v[0].content.v.parts == Value([]))
            ==> Normalize(response) == Err(PartsEmpty)
    ensures Normalize(response).Ok? <==>
      && FirstCandidateParts(response).Ok?
      && forall i :: 0 <= i < |FirstCandidateParts(response).value| ==>
           var p := FirstCandidateParts(response).value[i];
           HasText(p) || (p.inlineData.Value? && p.inlineData.v.data.Value?)
  {
    match FirstCandidateParts(response)
    case Err(_) =>
    case Ok(ps) =>
      GatherOkIff(PartSegment, ps, |ps|);
  }

  /** Only `candidates[0]` is read: what follows it never changes the outcome. */
  lemma OnlyFirstCandidate(c: Candidate, rest1: seq<Candidate>, rest2: seq<Candidate>)
    ensures Normalize(GenerateResponse(Value([c] + rest1))) == Normalize(GenerateResponse(Value([c] + rest2)))
  {
    assert ([c] + rest1)[0] == c == ([c] + rest2)[0];
  }

  /** The segment a part that does not raise becomes: non-empty text wins over inline data;
      string data passes through unchanged and bytes are base 64 encoded. */
  function ExpectedSegment(p: Part): Segment
  {
    if HasText(p) then Text(p.text.v)
    else if p.inlineData.Value? && p.inlineData.v.data.Value? && p.inlineData.v.data.v.RawBytes? then
      Image(Base64.Encode(p.inlineData.v.data.v.bytes))
    else if p.inlineData.Value? && p.inlineData.v.data.Value? then Image(p.inlineData.v.data.v.s)
    else Text("")  // never used: such a part raises, so no successful run reaches it
  }

  /** On success there is exactly one segment per part of the first candidate, in part order. */
  lemma NormalizeOnePerPart(response: GenerateResponse)
    requires Normalize(response).Ok?
    ensures FirstCandidateParts(response).Ok?
    ensures var ps, out := FirstCandidateParts(response).value, Normalize(response).value;
      && |out| == |ps|
      && forall i :: 0 <= i < |ps| ==>
           && out[i] == ExpectedSegment(ps[i])
           && (HasText(ps[i]) ==> out[i] == Text(ps[i].text.v))
           && (!HasText(ps[i]) ==> out[i].Image?)
  {
    var ps := FirstCandidateParts(response).value;
    GatherOneEach(PartSegment, ps, |ps|);
    GatherOkIff(PartSegment, ps, |ps|);
  }

  /** A part with neither non-empty text nor inline data raises with its own index, and it is the
      first part that raises. */
  lemma NormalizeFirstError(response: GenerateResponse)
    requires FirstCandidateParts(response).Ok? && Normalize(response).Err?
    ensures var ps := FirstCandidateParts(response).value;
      exists i :: 0 <= i < |ps|
        && (forall j :: 0 <= j < i ==> PartSegment(j, ps[j]).Ok?)
        && Normalize(response) == PartSegment(i, ps[i])
        && (Normalize(response).error == Crash || Normalize(response).error == UnexpectedPart(i))
        && (Normalize(response).error == UnexpectedPart(i) <==> !HasText(ps[i]) && !ps[i].inlineData.Value?)
  {
    var ps := FirstCandidateParts(response).value;
    GatherFirstError(PartSegment, ps, |ps|);
  }
}
