/**
 * The star-rating widget (src/components/ui/star-rating.tsx): five stars,
 * a hover preview, and the rating a click or a key emits through
 * `onChange`. The React hover state is a parameter and a result; an emitted
 * rating is `Some`, no call to `onChange` is `None`.
 */
module StarRating {
  import opened Wrappers
  import opened Schemas

  const Stars := 5

  /** `hoverValue !== null ? hoverValue : value` */
  function DisplayValue(value: int, hover: Option<int>): int {
    if hover.Some? then hover.value else value
  }

  /** `starNumber <= displayValue` */
  predicate IsFilled(star: int, value: int, hover: Option<int>) {
    star <= DisplayValue(value, hover)
  }

  /** The fill of stars 1 to 5, left to right. */
  function Fills(value: int, hover: Option<int>): seq<bool> {
    seq(Stars, i requires 0 <= i < Stars => IsFilled(i + 1, value, hover))
  }

  /** The filled stars are the leftmost ones, as many as the displayed
      value (clamped to 0..5); the hover value, when set, replaces the rating. */
  lemma FillsSpec(value: int, hover: Option<int>)
    ensures var f := Fills(value, hover);
      && |f| == Stars
      && (forall i, j :: 0 <= i <= j < Stars && f[j] ==> f[i])
      && (forall i :: 0 <= i < Stars ==> (f[i] <==> i < DisplayValue(value, hover)))
      && (hover.None? ==> forall i :: 0 <= i < Stars ==> (f[i] <==> i + 1 <= value))
      && (hover.Some? ==> forall i :: 0 <= i < Stars ==> (f[i] <==> i + 1 <= hover.value))
  {
  }

  /** `handleMouseEnter`: the hovered star becomes the preview, unless read-only. */
  function MouseEnter(readonly: bool, hover: Option<int>, star: int): Option<int> {
    if !readonly then Some(star) else hover
  }

  /** `handleMouseLeave`: the preview goes, unless read-only. */
  function MouseLeave(readonly: bool, hover: Option<int>): Option<int> {
    if !readonly then None else hover
  }

  /** Hovering a star and leaving it again shows the rating itself; while a
      star is hovered exactly the stars up to it are filled. */
  lemma HoverSpec(readonly: bool, hover: Option<int>, value: int, star: int)
    ensures !readonly ==> DisplayValue(value, MouseLeave(readonly, MouseEnter(readonly, hover, star))) == value
    ensures !readonly ==> forall n :: IsFilled(n, value, MouseEnter(readonly, hover, star)) <==> n <= star
    ensures readonly ==> MouseEnter(readonly, hover, star) == hover && MouseLeave(readonly, hover) == hover
  {
  }

  /** `handleClick`: the clicked star's number, when editable and listened to. */
  function Click(readonly: bool, hasOnChange: bool, star: int): Option<int> {
    if !readonly && hasOnChange then Some(star) else None
  }

  predicate StepsUp(key: string) {
    key == "ArrowRight" || key == "ArrowUp"
  }

  predicate StepsDown(key: string) {
    key == "ArrowLeft" || key == "ArrowDown"
  }

  predicate Selects(key: string) {
    key == "Enter" || key == " "
  }

  /** `handleKeyDown` on star `star` while the rating is `value`. */
  function KeyDown(readonly: bool, hasOnChange: bool, key: string, value: int, star: int): Option<int> {
    if readonly then None
    else if StepsUp(key) then (if value < 5 && hasOnChange then Some(value + 1) else None)
    else if StepsDown(key) then (if value > 1 && hasOnChange then Some(value - 1) else None)
    else if Selects(key) then (if hasOnChange then Some(star) else None)
    else None
  }

  /** What each key emits: one more below 5, one less above 1, the focused
      star on Enter or Space, and nothing for other keys, in read-only mode or
      without a listener. */
  lemma KeyDownSpec(readonly: bool, hasOnChange: bool, key: string, value: int, star: int)
    ensures var r := KeyDown(readonly, hasOnChange, key, value, star);
      && (r.Some? ==> !readonly && hasOnChange)
      && (StepsUp(key) ==> (r.Some? <==> !readonly && hasOnChange && value < 5) && (r.Some? ==> r.value == value + 1))
      && (StepsDown(key) ==> (r.Some? <==> !readonly && hasOnChange && value > 1) && (r.Some? ==> r.value == value - 1))
      && (Selects(key) ==> r == Click(readonly, hasOnChange, star))
      && (!StepsUp(key) && !StepsDown(key) && !Selects(key) ==> r.None?)
  {
  }

  /** A read-only widget never calls `onChange` and never previews. */
  lemma ReadonlyInert(hasOnChange: bool, key: string, value: int, star: int, hover: Option<int>)
    ensures KeyDown(true, hasOnChange, key, value, star).None?
    ensures Click(true, hasOnChange, star).None?
    ensures MouseEnter(true, hover, star) == hover && MouseLeave(true, hover) == hover
  {
  }

  /** Starting from no rating (0) or a rating in 1..5, every rating the
      widget's own stars emit is in 1..5, so `feedbackSchema` accepts it and
      reads it back unchanged. */
  lemma EmittedRatingAccepted(readonly: bool, hasOnChange: bool, key: string, value: int, star: int)
    requires 0 <= value <= Stars && 1 <= star <= Stars
    ensures var emitted := [KeyDown(readonly, hasOnChange, key, value, star), Click(readonly, hasOnChange, star)];
      forall k :: 0 <= k < |emitted| && emitted[k].Some? ==>
        && 1 <= emitted[k].value <= 5
        && ParseFeedback(JObj(map["rating" := JNum(emitted[k].value as real)])).Success?
        && ParseFeedback(JObj(map["rating" := JNum(emitted[k].value as real)])).value.rating == emitted[k].value
  {
    var emitted := [KeyDown(readonly, hasOnChange, key, value, star), Click(readonly, hasOnChange, star)];
    forall k | 0 <= k < |emitted| && emitted[k].Some?
      ensures 1 <= emitted[k].value <= 5
      ensures ParseFeedback(JObj(map["rating" := JNum(emitted[k].value as real)])).Success?
      ensures ParseFeedback(JObj(map["rating" := JNum(emitted[k].value as real)])).value.rating == emitted[k].value
    {
      RatingRoundTrip(emitted[k].value);
    }
  }

  /** A whole rating in 1..5 sent alone passes the schema and comes back as itself. */
  lemma RatingRoundTrip(r: int)
    requires 1 <= r <= 5
    ensures ParseFeedback(JObj(map["rating" := JNum(r as real)])).Success?
    ensures ParseFeedback(JObj(map["rating" := JNum(r as real)])).value.rating == r
  {
    var body := JObj(map["rating" := JNum(r as real)]);
    assert Field(body, "rating") == Some(JNum(r as real));
    assert Field(body, "notes") == None;
    assert (r as real).Floor == r;
    ParseFeedbackSpec(body);
  }
}
