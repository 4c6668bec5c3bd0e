/** The content filter: a case-insensitive denylist check applied to the
    first non-empty of a request's `content`, `title` and `description`
    (backend/middleware/moderation.js). */
module Moderation {
  import opened Common
  import opened Text
  import Http

  const ProfanityList: seq<string> := ["badword1", "badword2", "spam", "offensive"]

  const FlagReason: string := "Content contains inappropriate language"

  /** `checkProfanity`: some denylist term is included in the lower-cased text. */
  predicate CheckProfanity(text: string) {
    exists w :: w in ProfanityList && Includes(ToLower(text), w)
  }

  /** The filter flags a text exactly when some denylist term occurs, at
      some offset, in its lower-cased form. */
  lemma CheckProfanityIff(text: string)
    ensures CheckProfanity(text) <==>
      exists w, i :: w in ProfanityList && OccursAt(w, ToLower(text), i)
  {
    var lower := ToLower(text);
    if CheckProfanity(text) {
      var w :| w in ProfanityList && Includes(lower, w);
      IncludesIff(lower, w);
      var i :| OccursAt(w, lower, i);
      assert w in ProfanityList && OccursAt(w, lower, i);
    }
    if exists w, i :: w in ProfanityList && OccursAt(w, lower, i) {
      var w, i :| w in ProfanityList && OccursAt(w, lower, i);
      IncludesIff(lower, w);
      assert w in ProfanityList && Includes(ToLower(text), w);
      assert CheckProfanity(text);
    }
  }

  /** Every denylist term is non-empty, so the empty text is never flagged. */
  lemma EmptyTextNeverFlagged()
    ensures !CheckProfanity("")
  {
    forall w | w in ProfanityList ensures !Includes(ToLower(""), w) {
      IncludesIff(ToLower(""), w);
    }
  }

  /** The check ignores case: a text and its lower-cased form agree. */
  lemma CheckIgnoresCase(text: string)
    ensures CheckProfanity(ToLower(text)) == CheckProfanity(text)
  {
    ToLowerIdempotent(text);
  }

  /** Any text containing `spam`, whatever surrounds it, is flagged. */
  lemma SpamIsFlagged(before: string, after: string)
    ensures CheckProfanity(before + "spam" + after)
  {
    ToLowerAppend(before + "spam", after);
    ToLowerAppend(before, "spam");
    assert ToLower("spam") == "spam";
    IncludesMiddle(ToLower(before), "spam", ToLower(after));
    assert "spam" in ProfanityList;
  }

  /** `content || title || description || ''`: the first present field. */
  function TextToCheck(content: Option<string>, title: Option<string>, description: Option<string>): (r: string)
    ensures Present(content) ==> r == content.value
    ensures !Present(content) && Present(title) ==> r == title.value
    ensures !Present(content) && !Present(title) && Present(description) ==> r == description.value
    ensures !Present(content) && !Present(title) && !Present(description) ==> r == ""
  {
    if Present(content) then content.value
    else if Present(title) then title.value
    else if Present(description) then description.value
    else ""
  }

  /** The verdict the filter leaves for the route handler:
      `req.flaggedContent` with `req.moderationReason`, or nothing. */
  datatype Stamp = Clean | Flagged(reason: string)

  /** The filter's verdict on a request body: flagged, with the fixed
      reason, exactly when a denylist term occurs in the lower-cased form
      of the checked text. */
  function Classify(content: Option<string>, title: Option<string>, description: Option<string>): (r: Stamp)
    ensures r.Flagged? <==>
      exists w, i :: w in ProfanityList && OccursAt(w, ToLower(TextToCheck(content, title, description)), i)
    ensures r.Flagged? ==> r.reason == FlagReason
  {
    var text := TextToCheck(content, title, description);
    CheckProfanityIff(text);
    if CheckProfanity(text) then Flagged(FlagReason) else Clean
  }

  /** Only the first present field is looked at: a clean, non-empty
      `content` hides whatever `title` and `description` say. */
  lemma CleanContentHidesTitle(content: string, title: Option<string>, description: Option<string>)
    requires content != "" && !CheckProfanity(content)
    ensures Classify(Some(content), title, description) == Clean
  {
  }

  /** A body with no present field is never flagged. */
  lemma AbsentTextNeverFlagged(content: Option<string>, title: Option<string>, description: Option<string>)
    requires !Present(content) && !Present(title) && !Present(description)
    ensures Classify(content, title, description) == Clean
  {
    EmptyTextNeverFlagged();
  }

  /** `moderationMiddleware`: stamps the request when the checked text is
      flagged, leaves both fields as they were otherwise, and always calls
      `next()`. */
  method ModerationMiddleware(req: Http.Request) returns (next: bool)
    modifies req`flaggedContent, req`moderationReason
    ensures next
    ensures Classify(req.content, req.title, req.description).Flagged? ==>
      req.flaggedContent == Some(true) && req.moderationReason == Some(FlagReason)
    ensures Classify(req.content, req.title, req.description).Clean? ==>
      req.flaggedContent == old(req.flaggedContent) && req.moderationReason == old(req.moderationReason)
    ensures old(req.flaggedContent).None? && old(req.moderationReason).None? ==>
      StampOf(req.flaggedContent, req.moderationReason) == Classify(req.content, req.title, req.description)
  {
    var text := TextToCheck(req.content, req.title, req.description);
    if CheckProfanity(text) {
      req.flaggedContent := Some(true);
      req.moderationReason := Some(FlagReason);
    }
    next := true;
  }

  /** What a handler reads back: `req.flaggedContent || false` and
      `req.moderationReason || ''`. */
  function StampOf(flaggedContent: Option<bool>, moderationReason: Option<string>): (r: Stamp)
    ensures r.Flagged? <==> flaggedContent == Some(true)
  {
    if flaggedContent == Some(true) then
      Flagged(if moderationReason.Some? then moderationReason.value else "")
    else Clean
  }

  /** On a request not stamped before, the handler reads back exactly the
      filter's verdict. */
  lemma StampRoundTrip(content: Option<string>, title: Option<string>, description: Option<string>)
    ensures var v := Classify(content, title, description);
      StampOf(if v.Flagged? then Some(true) else None,
              if v.Flagged? then Some(FlagReason) else None) == v
  {
  }
}
