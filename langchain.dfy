/** `validate_and_extract_base64` for a LangChain chat reply, as in
    gemini2.5_image_generation/vertexai_image_editing_langchain.py and its two copies in
    gemini_image_generation/: `response.content` must be a non-empty list whose elements are
    strings or `{"image_url": {"url": <data URI>}}` dicts. The policy is fail-fast: the first
    malformed element raises. */
module LangChain {
  import opened Wrappers
  import opened Text
  import opened Json
  import opened Segments

  /** The reply message; `content` is `None` when the object has no `content` attribute. */
  datatype ChatResponse = ChatResponse(content: Option<Json>)

  /** The result of the loop body for `content[idx]`. */
  function ItemSegment(idx: nat, item: Json): Result<seq<Segment>, Error>
  {
    match item
    case JStr(s) => Ok([Text(s)])
    case JObj(m) =>
      var imageUrl := Get(m, "image_url", JNull);
      if !imageUrl.JObj? then Err(ImageUrlNotDict(idx))
      else
        var url := Get(imageUrl.fields, "url", JNull);
        if !url.JStr? then Err(UrlNotString(idx))
        else if ',' !in url.s then Err(UrlWithoutComma(idx))
        else Ok([Image(AfterLast(url.s, ','))])
    case _ => Err(UnexpectedItem(idx))
  }

  /** What the function returns or raises. */
  function Normalize(response: ChatResponse): Result<seq<Segment>, Error>
  {
    match response.content
    case None => Err(NoContent)
    case Some(JArr(items)) =>
      if items == [] then Err(ContentEmptyOrNotList) else Gather(ItemSegment, items, |items|)
    case Some(_) => Err(ContentEmptyOrNotList)
  }

  /** The url of an image element, `""` for an element of another shape. */
  function ItemUrl(item: Json): string
  {
    if item.JObj? && Get(item.fields, "image_url", JNull).JObj?
       && Get(Get(item.fields, "image_url", JNull).fields, "url", JNull).JStr?
    then Get(Get(item.fields, "image_url", JNull).fields, "url", JNull).s
    else ""
  }

  /** An element the loop accepts: a string, or a dict whose `image_url` is a dict whose `url` is
      a string holding a comma. */
  predicate IsWellFormedItem(item: Json)
  {
    item.JStr? || (item.JObj? && Get(item.fields, "image_url", JNull).JObj?
                   && Get(Get(item.fields, "image_url", JNull).fields, "url", JNull).JStr?
                   && ',' in ItemUrl(item))
  }

  /** The segment a well-formed element becomes. */
  function ExpectedSegment(item: Json): Segment
  {
    if item.JStr? then Text(item.s) else Image(AfterLast(ItemUrl(item), ','))
  }

  lemma ItemSegmentMeaning(idx: nat, item: Json)
    ensures ItemSegment(idx, item).Ok? <==> IsWellFormedItem(item)
    ensures ItemSegment(idx, item).Ok? ==> ItemSegment(idx, item) == Ok([ExpectedSegment(item)])
    ensures ItemSegment(idx, item).Err? ==> HasIndex(ItemSegment(idx, item).error, idx)
  {
  }

  /** The loop body for `content[idx]`: the segment it appends, or the error it raises. */
  method ExtractItem(idx: nat, item: Json) returns (r: Result<seq<Segment>, Error>)
    ensures r == ItemSegment(idx, item)
  {
    if item.JStr? {
      return Ok([Text(item.s)]);
    } else if item.JObj? {
      var imageUrl := Get(item.fields, "image_url", JNull);
      if !imageUrl.JObj? {
        return Err(ImageUrlNotDict(idx));
      }
      var url := Get(imageUrl.fields, "url", JNull);
      if !url.JStr? {
        return Err(UrlNotString(idx));
      }
      if ',' !in url.s {
        return Err(UrlWithoutComma(idx));
      }
      return Ok([Image(AfterLast(url.s, ','))]);
    } else {
      return Err(UnexpectedItem(idx));
    }
  }

  /** `validate_and_extract_base64`, loop and all. */
  method ValidateAndExtract(response: ChatResponse) returns (r: Result<seq<Segment>, Error>)
    ensures r == Normalize(response)
  {
    if response.content.None? {
      return Err(NoContent);
    }
    var content := response.content.value;
    if !content.JArr? || |content.items| == 0 {
      return Err(ContentEmptyOrNotList);
    }
    var items := content.items;
    var extracted: seq<Segment> := [];
    for idx := 0 to |items|
      invariant Gather(ItemSegment, items, idx) == Ok(extracted)
    {
      var step := ExtractItem(idx, items[idx]);
      if step.Err? {
        GatherErrorSticks(ItemSegment, items, idx + 1, |items|);
        return step;
      }
      extracted := extracted + step.value;
    }
    return Ok(extracted);
  }

  /** A missing `content`, a `content` that is not a list, and an empty list are errors, never an
      empty success; a non-empty list succeeds exactly when every element is well-formed. */
  lemma NormalizeOkIff(response: ChatResponse)
    ensures response.content.None? ==> Normalize(response) == Err(NoContent)
    ensures response.content.Some? && (!response.content.value.JArr? || response.content.value.items == [])
            ==> Normalize(response) == Err(ContentEmptyOrNotList)
    ensures Normalize(response).Ok? <==>
      && response.content.Some? && response.content.value.JArr? && response.content.value.items != []
      && forall i :: 0 <= i < |response.content.value.items| ==> IsWellFormedItem(response.content.value.items[i])
  {
    if response.content.Some? && response.content.value.JArr? {
      var items := response.content.value.items;
      GatherOkIff(ItemSegment, items, |items|);
      forall i | 0 <= i < |items| ensures ItemSegment(i, items[i]).Ok? <==> IsWellFormedItem(items[i]) {
        ItemSegmentMeaning(i, items[i]);
      }
    }
  }

  /** On success there is exactly one segment per element, in element order: a string becomes a
      text segment verbatim (empty and whitespace strings included), an image dict the text after
      the url's last comma, which holds no comma. */
  lemma NormalizeOnePerElement(response: ChatResponse)
    requires Normalize(response).Ok?
    ensures response.content.Some? && response.content.value.JArr?
    ensures var items, out := response.content.value.items, Normalize(response).value;
      && |out| == |items|
      && forall i :: 0 <= i < |items| ==>
           && out[i] == ExpectedSegment(items[i])
           && (items[i].JStr? ==> out[i] == Text(items[i].s))
           && (!items[i].JStr? ==> out[i].Image? && ',' in ItemUrl(items[i]) && ',' !in out[i].payload)
  {
    var items := response.content.value.items;
    forall i | 0 <= i < |items| ensures ItemSegment(i, items[i]).Ok? ==> |ItemSegment(i, items[i]).value| == 1 {
      ItemSegmentMeaning(i, items[i]);
    }
    GatherOneEach(ItemSegment, items, |items|);
    NormalizeOkIff(response);
    forall i | 0 <= i < |items| ensures Normalize(response).value[i] == ExpectedSegment(items[i]) {
      ItemSegmentMeaning(i, items[i]);
    }
  }

  /** A malformed element raises an error carrying its own index, and it is the first malformed
      element: everything before it was well-formed, and nothing is returned. */
  lemma NormalizeFirstError(response: ChatResponse)
    requires response.content.Some? && response.content.value.JArr? && response.content.value.items != []
    requires Normalize(response).Err?
    ensures var items := response.content.value.items;
      exists i :: 0 <= i < |items|
        && (forall j :: 0 <= j < i ==> IsWellFormedItem(items[j]))
        && !IsWellFormedItem(items[i])
        && Normalize(response) == ItemSegment(i, items[i])
        && HasIndex(Normalize(response).error, i)
  {
    var items := response.content.value.items;
    GatherFirstError(ItemSegment, items, |items|);
    var i :| 0 <= i < |items| && ItemSegment(i, items[i]) == Gather(ItemSegment, items, |items|)
             && forall j :: 0 <= j < i ==> ItemSegment(j, items[j]).Ok?;
    ItemSegmentMeaning(i, items[i]);
    forall j | 0 <= j < i ensures IsWellFormedItem(items[j]) {
      ItemSegmentMeaning(j, items[j]);
    }
  }
}
