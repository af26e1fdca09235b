/** src/components/ui/ReadMore.tsx: a paragraph cut to `maxLength` characters with a
    "Read More" / "Read Less" toggle. */
module ReadMore {
  import opened Opt
  import opened Text

  /** What is rendered: the paragraph text and the toggle button's label, if there is one. */
  datatype Display = Display(text: string, button: Option<string>)

  /** The component starts truncated. */
  const InitiallyTruncated: bool := true

  /** `toggleTruncate`. */
  function Toggle(truncated: bool): bool {
    !truncated
  }

  /** `text.slice(0, end)` for a numeric `end`: a negative end counts from the back. */
  function SliceTo(text: string, end: int): (r: string)
    ensures r <= text
    ensures 0 <= end <= |text| ==> |r| == end
  {
    if end < 0 then (if |text| + end <= 0 then "" else text[..|text| + end])
    else if end >= |text| then text
    else text[..end]
  }

  /** The component given a numeric `maxLength`. */
  function Render(text: string, maxLength: int, truncated: bool): (r: Display)
    ensures |text| <= maxLength ==> r == Display(text, None)
    ensures |text| > maxLength ==> r.button.Some?
    ensures |text| > maxLength && !truncated ==> r.text == text
    ensures |text| > maxLength >= 0 && truncated ==>
      |r.text| == maxLength + 3 && r.text[..maxLength] <= text && EndsWith(r.text, "...")
    ensures r.button == Some("Read More") <==> |text| > maxLength && truncated
  {
    if |text| <= maxLength then Display(text, None)
    else Display(if truncated then SliceTo(text, maxLength) + "..." else text,
                 Some(if truncated then "Read More" else "Read Less"))
  }

  /** Toggling twice restores the display. */
  lemma ToggleTwiceRestores(text: string, maxLength: int, truncated: bool)
    ensures Render(text, maxLength, Toggle(Toggle(truncated))) == Render(text, maxLength, truncated)
  {
  }

  /** A `maxLength` prop as the callers pass it: possibly `undefined`. */
  datatype MaxLength = Undefined | Given(n: int)

  /** The component as its callers actually invoke it. With `maxLength` undefined,
      `text.length <= undefined` is false and `text.slice(0, undefined)` is the whole text. */
  function RenderAsCalled(text: string, maxLength: MaxLength, truncated: bool): (r: Display)
    ensures maxLength.Given? ==> r == Render(text, maxLength.n, truncated)
    ensures maxLength.Undefined? ==> r.button.Some? && (truncated ==> r.text == text + "...")
  {
    match maxLength
    case Given(n) => Render(text, n, truncated)
    case Undefined =>
      Display(if truncated then text + "..." else text,
              Some(if truncated then "Read More" else "Read Less"))
  }

  /** Every caller omits `maxLength`, so every text — even an empty one or one already ending
      in an ellipsis — starts as itself plus "..." behind a "Read More" button. */
  lemma OmittedMaxLengthNeverShowsPlainText(text: string)
    ensures RenderAsCalled(text, Undefined, InitiallyTruncated) == Display(text + "...", Some("Read More"))
    ensures RenderAsCalled("", Undefined, InitiallyTruncated).button.Some?
  {
  }

  /** With a length given, short text is shown as is with no toggle, and long text is cut. */
  lemma GivenMaxLengthShowsShortTextPlain(text: string, maxLength: nat)
    ensures |text| <= maxLength ==> RenderAsCalled(text, Given(maxLength), InitiallyTruncated) == Display(text, None)
    ensures |text| > maxLength ==>
      RenderAsCalled(text, Given(maxLength), InitiallyTruncated) == Display(text[..maxLength] + "...", Some("Read More"))
  {
  }
}
