/** `validate_and_extract_base64` of the OpenRouter script, and the branching in its `main` on the
    result. The response is the decoded JSON body of a chat completion. The validator is
    soft-fail: it raises nothing itself and skips what it does not recognise; only Python runtime
    errors on a value of the wrong type (`Crash`) escape it. */
module OpenRouter {
  import opened Wrappers
  import opened Text
  import opened Json
  import opened Segments
  import opened Dispatch
  import opened Timestamp

  /** The text entry of one message: its `content` when that is a string with a non-whitespace
      character, kept as it was (not stripped). */
  function ContentEntry(message: map<string, Json>): seq<Segment>
  {
    var content := Get(message, "content", JNull);
    if Truthy(content) && content.JStr? && Strip(content.s) != "" then [Text(content.s)] else []
  }

  /** `if url and ',' in url:` then the text after the last comma. */
  function UrlEntry(url: Json): Result<seq<Segment>, Error>
  {
    if !Truthy(url) then Ok([])
    else
      match PyIn(",", url)
      case None => Err(Crash)                  // `in` on a number or a boolean
      case Some(false) => Ok([])
      case Some(true) =>
        if url.JStr? then Ok([Image(AfterLast(url.s, ','))])
        else Err(Crash)                        // a list or dict has no `split`
  }

  /** What one element of `images` contributes. */
  function ImageEntry(idx: nat, item: Json): Result<seq<Segment>, Error>
  {
    if !item.JObj? then Ok([])
    else if Get(item.fields, "type", JNull) == JStr("image_url") then
      match Get(item.fields, "image_url", JObj(map[]))
      case JObj(imageUrl) => UrlEntry(Get(imageUrl, "url", JStr("")))
      case _ => Err(Crash)                     // a non-dict has no `get`
    else if "base64" in item.fields then
      match item.fields["base64"]
      case JStr(b) => Ok([Image(b)])
      case _ => Err(Crash)                     // only a string can be a payload
    else Ok([])
  }

  /** The image entries of one message: `images` is walked only when it is a non-empty list. */
  function ImageEntries(message: map<string, Json>): Result<seq<Segment>, Error>
  {
    var images := Get(message, "images", JNull);
    if Truthy(images) && images.JArr? then Gather(ImageEntry, images.items, |images.items|)
    else Ok([])
  }

  /** What one element of `choices` contributes: its text entry, then its image entries. */
  function ChoiceEntries(idx: nat, choice: Json): Result<seq<Segment>, Error>
  {
    if !choice.JObj? then Err(Crash)
    else
      match Get(choice.fields, "message", JObj(map[]))
      case JObj(message) =>
        (match ImageEntries(message)
         case Ok(images) => Ok(ContentEntry(message) + images)
         case Err(e) => Err(e))
      case _ => Err(Crash)
  }

  /** `for choice in response['choices']`, for each kind of value `choices` can hold. */
  function ChoicesEntries(choices: Json): Result<seq<Segment>, Error>
  {
    match choices
    case JArr(cs) => Gather(ChoiceEntries, cs, |cs|)
    case JStr(s) => if s == "" then Ok([]) else Err(Crash)       // its characters have no `get`
    case JObj(m) => if m == map[] then Ok([]) else Err(Crash)    // its keys have no `get`
    case _ => Err(Crash)                                       // not iterable
  }

  /** What the function returns or raises. */
  function Normalize(response: Json): Result<seq<Segment>, Error>
  {
    match PyIn("choices", response)
    case None => Err(Crash)
    case Some(false) => Ok([])
    case Some(true) =>
      if response.JObj? then ChoicesEntries(response.fields["choices"])
      else Err(Crash)                          // a list or string cannot be indexed by a string
  }

  /** The body of `for image_item in images`: what one item appends. */
  method ExtractImage(idx: nat, item: Json) returns (r: Result<seq<Segment>, Error>)
    ensures r == ImageEntry(idx, item)
  {
    if !item.JObj? {
      return Ok([]);
    }
    var fields := item.fields;
    if Get(fields, "type", JNull) == JStr("image_url") {
      var imageUrl := Get(fields, "image_url", JObj(map[]));
      if !imageUrl.JObj? {
        return Err(Crash);
      }
      var url := Get(imageUrl.fields, "url", JStr(""));
      if !Truthy(url) {
        return Ok([]);
      }
      var hasComma := PyIn(",", url);
      if hasComma.None? {
        return Err(Crash);
      }
      if !hasComma.value {
        return Ok([]);
      }
      if !url.JStr? {
        return Err(Crash);
      }
      return Ok([Image(AfterLast(url.s, ','))]);
    } else if "base64" in fields {
      if !fields["base64"].JStr? {
        return Err(Crash);
      }
      return Ok([Image(fields["base64"].s)]);
    }
    return Ok([]);
  }

  /** The walk over one message's `images` list. */
  method ExtractImages(items: seq<Json>) returns (r: Result<seq<Segment>, Error>)
    ensures r == Gather(ImageEntry, items, |items|)
  {
    var found: seq<Segment> := [];
    for j := 0 to |items|
      invariant Gather(ImageEntry, items, j) == Ok(found)
    {
      var more := ExtractImage(j, items[j]);
      if more.Err? {
        GatherErrorSticks(ImageEntry, items, j + 1, |items|);
        return more;
      }
      found := found + more.value;
    }
    return Ok(found);
  }

  /** The body of `for choice in response['choices']`: the text entry, then the images. */
  method ExtractChoice(idx: nat, choice: Json) returns (r: Result<seq<Segment>, Error>)
    ensures r == ChoiceEntries(idx, choice)
  {
    if !choice.JObj? {
      return Err(Crash);
    }
    var msg := Get(choice.fields, "message", JObj(map[]));
    if !msg.JObj? {
      return Err(Crash);
    }
    var message := msg.fields;
    var content := Get(message, "content", JNull);
    var text: seq<Segment> := [];
    if Truthy(content) && content.JStr? && Strip(content.s) != "" {
      text := [Text(content.s)];
    }
    assert text == ContentEntry(message);
    var images := Get(message, "images", JNull);
    var found: Result<seq<Segment>, Error> := Ok([]);
    if Truthy(images) && images.JArr? {
      found := ExtractImages(images.items);
    }
    assert found == ImageEntries(message);
    ChoiceEntriesOf(idx, choice, message);
    if found.Err? {
      return Err(found.error);
    }
    return Ok(text + found.value);
  }

  /** `ChoiceEntries` for a choice whose message is the dict `message`. */
  lemma ChoiceEntriesOf(idx: nat, choice: Json, message: map<string, Json>)
    requires choice.JObj? && Get(choice.fields, "message", JObj(map[])) == JObj(message)
    ensures ImageEntries(message).Err? ==> ChoiceEntries(idx, choice) == Err(ImageEntries(message).error)
    ensures ImageEntries(message).Ok? ==> ChoiceEntries(idx, choice) == Ok(ContentEntry(message) + ImageEntries(message).value)
  {
  }

  /** `validate_and_extract_base64`: the checks on `choices`, then the nested loops over the
      choices and their images that append to `extracted_list`. */
  method ValidateAndExtract(response: Json) returns (r: Result<seq<Segment>, Error>)
    ensures r == Normalize(response)
  {
    var hasChoices := PyIn("choices", response);
    if hasChoices.None? {
      return Err(Crash);
    }
    if !hasChoices.value {
      return Ok([]);
    }
    if !response.JObj? {
      return Err(Crash);
    }
    var choices := response.fields["choices"];
    if !choices.JArr? {
      if (choices.JStr? && choices.s == "") || (choices.JObj? && choices.fields == map[]) {
        return Ok([]);
      }
      return Err(Crash);
    }
    r := ExtractChoices(choices.items);
  }

  /** The walk over `choices`. */
  method ExtractChoices(cs: seq<Json>) returns (r: Result<seq<Segment>, Error>)
    ensures r == Gather(ChoiceEntries, cs, |cs|)
  {
    var extracted: seq<Segment> := [];
    for i := 0 to |cs|
      invariant Gather(ChoiceEntries, cs, i) == Ok(extracted)
    {
      var entries := ExtractChoice(i, cs[i]);
      GatherStep(ChoiceEntries, cs, i);
      if entries.Err? {
        return entries;
      }
      extracted := extracted + entries.value;
    }
    return Ok(extracted);
  }

  /** A dict without `choices` is no error: the result is the empty list. */
  lemma NoChoicesNoEntries(response: Json)
    requires response.JObj? && "choices" !in response.fields
    ensures Normalize(response) == Ok([])
  {
  }

  /** Soft-fail: the validator itself raises nothing; every failure is a runtime error on a value
      of the wrong type. */
  lemma SoftFail(response: Json)
    ensures Normalize(response).Err? ==> Normalize(response).error == Crash
  {
    if response.JObj? && "choices" in response.fields && response.fields["choices"].JArr? {
      var cs := response.fields["choices"].items;
      if Gather(ChoiceEntries, cs, |cs|).Err? {
        GatherFirstError(ChoiceEntries, cs, |cs|);
        var i :| 0 <= i < |cs| && ChoiceEntries(i, cs[i]) == Gather(ChoiceEntries, cs, |cs|);
        if cs[i].JObj? && Get(cs[i].fields, "message", JObj(map[])).JObj? {
          var message := Get(cs[i].fields, "message", JObj(map[])).fields;
          var images := Get(message, "images", JNull);
          if Truthy(images) && images.JArr? {
            GatherFirstError(ImageEntry, images.items, |images.items|);
          }
        }
      }
    }
  }

  /** A message yields one text entry exactly when its `content` is a string holding a
      non-whitespace character, and that entry is the whole string, unstripped. */
  lemma ContentEntryMeaning(message: map<string, Json>)
    ensures |ContentEntry(message)| <= 1
    ensures ContentEntry(message) != [] <==>
      var content := Get(message, "content", JNull);
      content.JStr? && exists i :: 0 <= i < |content.s| && !IsSpace(content.s[i])
    ensures ContentEntry(message) != [] ==> ContentEntry(message) == [Text(Get(message, "content", JNull).s)]
  {
    var content := Get(message, "content", JNull);
    if content.JStr? {
      StripEmptyIff(content.s);
      assert content.s == [] ==> Strip(content.s) == [];
      assert ContentEntry(message) == if Strip(content.s) != [] then [Text(content.s)] else [];
    }
  }

  /** Every entry a walk over `images` produces is an image. */
  lemma {:induction false} ImageEntriesAreImages(items: seq<Json>, n: nat)
    requires n <= |items|
    requires Gather(ImageEntry, items, n).Ok?
    ensures forall k :: 0 <= k < |Gather(ImageEntry, items, n).value| ==> Gather(ImageEntry, items, n).value[k].Image?
  {
    if n > 0 {
      ImageEntriesAreImages(items, n - 1);
    }
  }

  /** Within one choice the text entry, if any, comes first and everything after it is an image. */
  lemma ChoiceLayout(idx: nat, choice: Json)
    requires ChoiceEntries(idx, choice).Ok?
    ensures choice.JObj? && Get(choice.fields, "message", JObj(map[])).JObj?
    ensures var entries := ChoiceEntries(idx, choice).value;
      var text := ContentEntry(Get(choice.fields, "message", JObj(map[])).fields);
      && text <= entries
      && forall k :: |text| <= k < |entries| ==> entries[k].Image?
  {
    var message := Get(choice.fields, "message", JObj(map[])).fields;
    var images := Get(message, "images", JNull);
    if Truthy(images) && images.JArr? {
      ImageEntriesAreImages(images.items, |images.items|);
    }
  }

  /** Choices are processed in order: the entries of choice `m` follow those of the choices
      before it, and the result ends once the last choice's entries are in. */
  lemma ChoiceOrder(response: Json)
    requires Normalize(response).Ok?
    requires response.JObj? && "choices" in response.fields && response.fields["choices"].JArr?
    ensures var cs := response.fields["choices"].items;
      forall m :: 0 <= m < |cs| ==>
        && Gather(ChoiceEntries, cs, m).Ok? && ChoiceEntries(m, cs[m]).Ok?
        && Gather(ChoiceEntries, cs, m).value + ChoiceEntries(m, cs[m]).value <= Normalize(response).value
  {
    var cs := response.fields["choices"].items;
    GatherOrder(ChoiceEntries, cs, |cs|);
  }

  /** An `image_url`-typed item with a string url: one image holding exactly the text after the
      url's last comma when the url has a comma; nothing, and no error, when it has none. */
  lemma ImageUrlItem(idx: nat, item: Json, url: string)
    requires item.JObj? && Get(item.fields, "type", JNull) == JStr("image_url")
    requires Get(item.fields, "image_url", JObj(map[])).JObj?
    requires Get(Get(item.fields, "image_url", JObj(map[])).fields, "url", JStr("")) == JStr(url)
    ensures ',' in url ==> ImageEntry(idx, item) == Ok([Image(AfterLast(url, ','))]) && ',' !in AfterLast(url, ',')
    ensures ',' !in url ==> ImageEntry(idx, item) == Ok([])
  {
    IsSubstringOfChar(',', url);
  }

  /** Items that contribute nothing and raise nothing: anything that is not a dict, and a dict
      neither typed `image_url` nor holding `base64`. */
  lemma IgnoredItems(idx: nat, item: Json)
    requires !item.JObj? || (Get(item.fields, "type", JNull) != JStr("image_url") && "base64" !in item.fields)
    ensures ImageEntry(idx, item) == Ok([])
  {
  }

  /** A message whose `images` is not a list, or is an empty one, contributes no image. */
  lemma IgnoredImages(message: map<string, Json>)
    requires !Get(message, "images", JNull).JArr? || Get(message, "images", JNull).items == []
    ensures ImageEntries(message) == Ok([])
  {
  }

  /** A dict not typed `image_url` carrying a string `base64` contributes that string verbatim. */
  lemma Base64Item(idx: nat, item: Json, b: string)
    requires item.JObj? && Get(item.fields, "type", JNull) != JStr("image_url")
    requires "base64" in item.fields && item.fields["base64"] == JStr(b)
    ensures ImageEntry(idx, item) == Ok([Image(b)])
  {
  }

  /** The branching in `main` on the validator's outcome: an exception is reported; an empty list
      is reported; with an image the whole list is dispatched; with none each text is printed. */
  function MainActions(result: Result<seq<Segment>, Error>, filePath: string, clock: nat -> DateTime): seq<Action>
  {
    match result
    case Err(_) => [Warn(Failed)]
    case Ok(entries) =>
      if entries == [] then [Warn(NothingExtracted)]
      else if HasImage(entries) then Actions(entries, FileNames(EditOf(filePath), clock))
      else [Warn(TextOnly)] + TextActions(entries)
  }

  /** One `PrintText` per text entry, in order. */
  function TextActions(entries: seq<Segment>): seq<Action>
  {
    if entries == [] then []
    else
      var last := entries[|entries| - 1];
      TextActions(entries[..|entries| - 1]) + (if last.Text? then [PrintText(last.text)] else [])
  }

  /** `main`'s handling of one response (the body of its `try`). */
  method HandleResult(result: Result<seq<Segment>, Error>, filePath: string, clock: nat -> DateTime)
    returns (trace: seq<Action>)
    ensures trace == MainActions(result, filePath, clock)
  {
    if result.Err? {
      return [Warn(Failed)];
    }
    var entries := result.value;
    if entries == [] {
      return [Warn(NothingExtracted)];
    }
    var hasImage := exists i :: 0 <= i < |entries| && entries[i].Image?;
    if hasImage {
      trace := ProcessSegments(entries, EditOf(filePath), clock, false);
      return;
    }
    trace := [Warn(TextOnly)];
    for i := 0 to |entries|
      invariant trace == [Warn(TextOnly)] + TextActions(entries[..i])
    {
      assert entries[..i + 1][..i] == entries[..i];
      if entries[i].Text? {
        trace := trace + [PrintText(entries[i].text)];
      }
    }
    assert entries[..|entries|] == entries;
  }

  lemma {:induction false} TextActionsPrintTexts(entries: seq<Segment>)
    ensures Printed(TextActions(entries)) == Texts(entries)
    ensures Saved(TextActions(entries)) == []
  {
    if entries != [] {
      var init := entries[..|entries| - 1];
      TextActionsPrintTexts(init);
      var last := entries[|entries| - 1];
      if last.Text? {
        SavedAppend(TextActions(init), PrintText(last.text));
      } else {
        assert TextActions(entries) == TextActions(init);
      }
    }
  }

  /** Whatever the branch, `main` prints every text entry and saves exactly the image payloads, in
      order; it saves nothing when no entry is an image. */
  lemma MainSavesImages(entries: seq<Segment>, filePath: string, clock: nat -> DateTime)
    ensures Printed(MainActions(Ok(entries), filePath, clock)) == Texts(entries)
    ensures Saved(MainActions(Ok(entries), filePath, clock)) == Payloads(entries)
    ensures !HasImage(entries) ==> Saved(MainActions(Ok(entries), filePath, clock)) == []
  {
    CountImagesZero(entries);
    var trace := MainActions(Ok(entries), filePath, clock);
    if entries == [] {
      assert trace == [] + [Warn(NothingExtracted)];
      SavedAppend([], Warn(NothingExtracted));
    } else if HasImage(entries) {
      SavesAndPrints(entries, FileNames(EditOf(filePath), clock));
    } else {
      TextActionsPrintTexts(entries);
      WarnInFront(TextOnly, TextActions(entries));
      SavesAndPrints(entries, FileNames(EditOf(filePath), clock));
    }
  }
}
