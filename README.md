# Satellite timelapse: cadence, smoothing, labels and output names

This project models, in Dafny, the logic of `generate_timelapse` in the
satellite-timelapse tool: the code that owns its decisions rather than
delegating them to Earth Engine, geemap or ffmpeg. Four pieces are modelled
and proved:

- **Cadence policy** (`Cadence`): the frequency string picks the smoothing
  half-window: one year for `"year"`, four months for `"quarter"`, two months
  for `"month"`, and one year for anything else. The policy never fails.
- **Temporal smoother** (`Smoother`): each composite of the series is
  replaced by the median of the composites of the *original* collection whose
  timestamp lies in `[t − w, t + w)`. The result keeps the composite's own
  timestamp. A timestamp is a month index (`year * 12 + month − 1`), so
  `advance(±w, unit)` is integer addition and a year is 12 months. The window
  is half-open because the collection's date filter excludes its end date. A
  composite's value stands for one band of one pixel, because the median is
  taken pixel by pixel and band by band. The median reduction itself runs
  remotely, so it is a parameter. The only thing assumed of it
  (`MedianReducer`) is that on a non-empty input it lies between the input's
  minimum and maximum. That also fixes the median of one element. The model
  does not assume the median is one of the inputs, since an even-count median
  may average the two middle values.
- **Frame labels** (`Calendar`, `Digits`, `Labels`): each present UTC
  epoch-millisecond timestamp becomes `"YYYY"`, `"YYYY Qn"` or `"YYYY-MM"`.
  Absent (`None`) timestamps are skipped. The conversion goes from whole days
  since 1970-01-01 (floor division by 86 400 000) to a proleptic Gregorian
  date, and it is proved to invert the date's day count. Each label format has
  a parser proved to recover the year and the quarter or month. A timestamp
  whose year falls outside `datetime`'s range 1..9999 raises. That exception
  is caught by the surrounding `try`, so no overlay is drawn (`OverlayStep`).
- **Output names** (`Naming`): the default base name `"timelapse"` becomes
  `"timelapse_" + place.split(',')[0].strip().replace(' ', '_')`. The `.gif`
  suffix is appended when it is missing. The `.mp4` twin is the name plus
  `.mp4`, or, for a name already ending in `.gif`, the name with every
  `.gif` replaced by `.mp4`.

The model follows the code as written, in particular where it departs
from what the code announces:

- The code announces a "Moving Median" (src/timelapse.py:44) "with radius
  {window_size} {unit}(s)" (src/timelapse.py:54), that is, a window reaching
  `w` to each side of the frame. It filters with an exclusive end date, so the
  window is `[t − w, t + w)` (see Findings).
- A missing timestamp is skipped with `continue` (src/timelapse.py:107) and
  gets no label. There are then fewer labels than timestamps
  (`Labels.PresentLength`, `Labels.PresentKeepsSomes`,
  `Labels.LabelsPerTimestamp`).
- A frequency other than the three known ones gets the yearly smoothing
  window but monthly `%Y-%m` labels. The model keeps both choices as written.

## Model

| member | source | states |
|---|---|---|
| Cadence.WindowFor | src/timelapse.py:45-52 | `"year"` gives (1, year), `"quarter"` (4, month), `"month"` (2, month), every other string (1, year); total, and the size is never zero |
| Cadence.HalfWidthMonths | src/timelapse.py:45-59 | the half-width in months is between 1 and 12; it is 4 exactly for `"quarter"`, 2 exactly for `"month"`, and 12 for every other string |
| Smoother.Select | src/timelapse.py:61 | the date filter never returns more composites than the collection holds; what it keeps is stated by `SelectMembers` and `SelectMultiplicity` |
| Smoother.SelectMultiplicity | src/timelapse.py:61 | each composite inside `[lo, hi)` is kept as often as it occurs in the collection, and any other composite not at all |
| Smoother.SelectMembers | src/timelapse.py:61 | the date filter keeps exactly the composites of the collection whose time lies in `[lo, hi)` |
| Smoother.Window | src/timelapse.py:57-61 | the window of a frame at `t` holds exactly the composites of the original collection with time in `[t − w, t + w)`, and no more of them than the collection |
| Smoother.Frame | src/timelapse.py:56-62 | a smoothed frame keeps the timestamp of its composite; for a composite of the collection, a non-zero half-width and a median reducer, its window is non-empty and its value lies between the window's minimum and maximum |
| Smoother.SmoothEach | src/timelapse.py:56-64 | mapping the per-frame smoothing keeps length, and frame `i` is the smoothing of element `i`, always looked up in the original collection |
| Smoother.Smooth | src/timelapse.py:56-64 | length and order are kept, frame `i` carries exactly the timestamp of composite `i`, and its value is the median of the original composites inside `[t_i − w, t_i + w)` |
| Smoother.WindowHoldsSelf | src/timelapse.py:45-61 | since every half-width is at least one month, every window holds the frame's own composite and is never empty |
| Smoother.SmoothedValueBounded | src/timelapse.py:61-62 | a smoothed value lies between the minimum and the maximum of its window, and of the whole series |
| Smoother.SmoothSingleton | src/timelapse.py:56-64 | a one-composite series smooths to itself under every cadence |
| Smoother.ConstantFrame | src/timelapse.py:56-64 | each frame of a series whose values are all equal keeps that value |
| Smoother.SmoothConstant | src/timelapse.py:56-64 | a series whose values are all equal is left unchanged |
| Smoother.YearlyWindowOneSided | src/timelapse.py:57-61 | with yearly period-start timestamps, the window of a middle composite is the previous year and itself, not the next year |
| Smoother.YearlyFrameAsWritten | src/timelapse.py:56-64 | the middle of three yearly frames is the median of the previous year and its own year only |
| Smoother.QuarterlyWindowTwoSided | src/timelapse.py:47-61 | with quarters three months apart, the four-month window takes the quarter on each side and nothing further |
| Smoother.MonthlyWindowShape | src/timelapse.py:49-61 | with monthly composites, the two-month window takes the two months before, the month itself and the month after |
| Smoother.SmoothCentered | src/timelapse.py:56-64 | corrected smoother with the closed window: length kept and each frame keeps its composite's timestamp |
| Smoother.CenteredWindowSymmetric | src/timelapse.py:57-61 | in the closed window a composite `d` months before the frame is selected exactly when one `d` months after is |
| Smoother.CenteredYearlyWindow | src/timelapse.py:57-61 | the closed yearly window of a middle composite takes the years on both sides |
| Smoother.YearlyFrameCentered | src/timelapse.py:56-64 | with the closed window, the middle yearly frame is the median of all three years |
| Calendar.YearStep | src/timelapse.py:108 | January 1st of consecutive years are 365 or 366 days apart, by the Gregorian leap rule |
| Calendar.YearsIncrease | src/timelapse.py:108 | the day number of January 1st grows by at least 365 per year |
| Calendar.MonthTablesAgree | src/timelapse.py:108 | the days-before-month table is the running sum of the month lengths, from 0 to the year's length |
| Calendar.DateInsideYear | src/timelapse.py:108 | the day count of a valid date lies within its own year |
| Calendar.YearOf | src/timelapse.py:108 | the year found for a day is the one whose January 1st is at or before it and whose next January 1st is after it |
| Calendar.MonthFrom | src/timelapse.py:108 | the month found for a day of the year is the one whose first day is at or before it and whose next month's first day is after it |
| Calendar.YearUnique | src/timelapse.py:108 | only one year can hold a given day |
| Calendar.CivilFromDays | src/timelapse.py:108 | the date of any day count, before or after 1970, is a valid date whose day count is that number |
| Calendar.CivilRoundTrip | src/timelapse.py:108 | every valid date is the date of its own day count, so the conversion is a bijection |
| Calendar.DayOfMillis | src/timelapse.py:108 | the UTC day of a millisecond timestamp is the floor of `ms / 86 400 000`, also for negative timestamps |
| Calendar.DateOfMillis | src/timelapse.py:108 | the date of a timestamp is valid and its day contains the timestamp |
| Digits.DecimalString | src/timelapse.py:110-113 | a year prints as digits only, with no leading zero |
| Digits.DecimalRoundTrip | src/timelapse.py:110-113 | parsing a printed year gives it back |
| Digits.DecimalLength4 | src/timelapse.py:110 | years 1000 to 9999 print as exactly four digits |
| Digits.Pad2 | src/timelapse.py:115 | `%m` prints exactly two digits |
| Digits.Pad2RoundTrip | src/timelapse.py:115 | parsing a zero-padded month gives it back |
| Labels.LabelOf | src/timelapse.py:108-115 | a timestamp gets a label exactly when its year is within `datetime`'s range; otherwise the error names that timestamp |
| Labels.Format | src/timelapse.py:109-115 | every label starts with the year's decimal text; the yearly label is exactly that text, and the quarterly and monthly labels add three characters (partners: the label round-trip lemmas below) |
| Labels.Present | src/timelapse.py:105-107 | skipping absent timestamps never lengthens the list |
| Labels.PresentLength | src/timelapse.py:105-107 | the timestamps kept are exactly as many as the present entries, counted independently from the front |
| Labels.FormatAll | src/timelapse.py:105-115 | on success the labels are exactly as many as the timestamps (content and failure: `FormatAllPointwise`, `FormatAllFailsExactly`) |
| Labels.LabelsOf | src/timelapse.py:105-115 | on success there is one label per present timestamp, never more than there are timestamps; this is the reference the label loop is proved equal to |
| Labels.DeriveLabels | src/timelapse.py:105-115 | the label loop returns exactly the labels of the present timestamps in order, or the first out-of-range timestamp's error |
| Labels.PresentStep | src/timelapse.py:106-107 | one more timestamp adds its value to the present ones exactly when it is present, and is skipped otherwise |
| Labels.FormatAllSnoc | src/timelapse.py:108-115 | after a successful prefix, one more timestamp appends its label, or makes the derivation fail with its own error |
| Labels.FailureEnds | src/timelapse.py:105-115 | when the derivation fails on a prefix of the timestamps, it fails on the whole list with the same error |
| Labels.PresentAppend | src/timelapse.py:105-107 | skipping absent timestamps distributes over concatenation |
| Labels.FailureStays | src/timelapse.py:105-115 | once a timestamp raises, the timestamps after it do not change the outcome |
| Labels.FormatAllPointwise | src/timelapse.py:105-115 | on success there is one label per timestamp, and label `k` is timestamp `k`'s label |
| Labels.FormatAllFailsExactly | src/timelapse.py:105-115 | the derivation fails exactly when some timestamp has no label |
| Labels.LabelsPerTimestamp | src/timelapse.py:105-115 | labels exist exactly when every present timestamp is in range; then there is one per present timestamp, in input order |
| Labels.PresentKeepsSomes | src/timelapse.py:105-107 | every present timestamp is kept, nothing else enters, and an all-absent list gives no labels |
| Labels.YearLabelRoundTrip | src/timelapse.py:109-110 | a yearly label is the year's text and parses back to the year |
| Labels.MonthLabelParts | src/timelapse.py:115 | a year's digits, a dash and two digits parse back to the year and the month |
| Labels.QuarterLabelRoundTrip | src/timelapse.py:111-113 | a quarterly label parses back to the year and quarter `(month − 1) / 3 + 1`, which is between 1 and 4 |
| Labels.MonthLabelRoundTrip | src/timelapse.py:114-115 | a monthly label, also the one for any unknown frequency, parses back to the year and month |
| Labels.DateOfJuly15th2020 | src/timelapse.py:108 | every instant of 2020-07-15 UTC converts to that date |
| Labels.FormatJuly2020 | src/timelapse.py:109-115 | July 2020 formats as `"2020"`, `"2020 Q3"` and `"2020-07"` |
| Labels.LabelsOfJuly15th2020 | src/timelapse.py:108-115 | every instant of 2020-07-15 UTC is labelled `"2020"`, `"2020 Q3"` or `"2020-07"` by cadence |
| Labels.OverlayStep | src/timelapse.py:117-131 | the overlay is drawn exactly when the derivation succeeds with a non-empty list, using that list; a failed derivation is caught and leaves the video unlabelled |
| Naming.SpaceChars | src/timelapse.py:70 | for the whitespace set `IsSpace` that `strip()` removes (Python's `str.isspace`), space, tab, newline and carriage return are whitespace, and no comma, underscore, dot, digit or ASCII letter is |
| Naming.FirstSegment | src/timelapse.py:70 | `split(',')[0]` is the prefix before the first comma, or all the text when there is no comma |
| Naming.StripLeft | src/timelapse.py:70 | the left strip is a suffix of the text; everything removed is whitespace, and what remains does not start with whitespace |
| Naming.StripRight | src/timelapse.py:70 | the right strip is a prefix of the text; everything removed is whitespace, and what remains does not end with whitespace |
| Naming.Strip | src/timelapse.py:70 | `strip()` never lengthens the text and leaves no trailing whitespace (the full characterisation is `StripKeepsMiddle`) |
| Naming.StripKeepsMiddle | src/timelapse.py:70 | `strip()` keeps a contiguous middle part, removes only whitespace outside it, and leaves no whitespace at either end |
| Naming.StripFront | src/timelapse.py:70 | what `strip()` keeps does not start with whitespace |
| Naming.TrailingSpaces | src/timelapse.py:70 | whitespace at the end of a suffix of the text is whitespace at the end of the text |
| Naming.StripNoop | src/timelapse.py:70 | text with no whitespace at either end is unchanged by `strip()` |
| Naming.SpacesToUnderscores | src/timelapse.py:70 | the length is kept, every space becomes `_` and every other character stays |
| Naming.SpacesNoop | src/timelapse.py:70 | text without spaces is unchanged by the replacement |
| Naming.CleanPlace | src/timelapse.py:70 | the cleaned place is never longer than the place name (its shape is `CleanPlaceShape`) |
| Naming.CleanPlaceShape | src/timelapse.py:70 | the cleaned place holds no comma and no space, and has no whitespace at either end |
| Naming.FirstSegmentBeforeComma | src/timelapse.py:70 | the first segment of `a,b` is `a` when `a` has no comma |
| Naming.ResolveName | src/timelapse.py:70-72 | the sentinel `"timelapse"` becomes `"timelapse_" + clean place`; any other name is kept unchanged |
| Naming.OutputNames | src/timelapse.py:74-77 | the `.gif` name ends in `.gif` and the `.mp4` name in `.mp4`; a name without the suffix gets `name + ".gif"` and `name + ".mp4"`; a name with it is kept, and its `.mp4` twin has every `.gif` replaced, with none left |
| Naming.EndsWith | src/timelapse.py:74 | `endswith` holds exactly when the text is some prefix followed by the suffix |
| Naming.ReplaceGif | src/timelapse.py:77 | `replace('.gif', '.mp4')` keeps the length, since both suffixes have four characters (partners: `ReplaceGifLeavesNone`, `ReplaceGifNoop`, `ReplaceGifSuffix`) |
| Naming.ReplaceGifHead | src/timelapse.py:77 | replacing keeps the first character |
| Naming.ReplaceGifStep | src/timelapse.py:77 | text that does not start with `.` keeps its first character and the rest is replaced |
| Naming.ReplaceGifSuffix | src/timelapse.py:77 | a trailing `.gif` becomes a trailing `.mp4` |
| Naming.NoGifAfter | src/timelapse.py:77 | a character other than `.` in front of text without `.gif` creates no `.gif` |
| Naming.NoDotNoGif | src/timelapse.py:77 | text without a `.` holds no `.gif` |
| Naming.Mp4NoGif | src/timelapse.py:77 | putting `.mp4` in front of text without `.gif` creates none |
| Naming.ReplaceGifNoNewStart | src/timelapse.py:77 | replacement does not create a `.gif` at the front of text that did not start with one |
| Naming.ReplaceGifLeavesNone | src/timelapse.py:77 | after `replace('.gif', '.mp4')` no `.gif` remains anywhere |
| Naming.ReplaceGifNoop | src/timelapse.py:77 | text without `.gif` is unchanged by the replacement |
| Naming.OutputNamesIdempotent | src/timelapse.py:74-77 | normalising the suffix of an already normalised `.gif` name changes nothing |
| Naming.NotGifName | src/timelapse.py:74-75 | a name whose fourth-last character is not `.` gets `.gif` and `.mp4` appended |
| Naming.ReturnedName | src/timelapse.py:149 | the returned name always ends in `.gif` and is the resolved name, with `.gif` appended at most once; the default name starts with `timelapse_<clean place>` |
| Naming.CleanUdine | src/timelapse.py:70 | `"Udine, Italy"` cleans to `"Udine"` |
| Naming.UdineNames | src/timelapse.py:70-77 | with the default name, place `"Udine, Italy"` gives `timelapse_Udine.gif` and `timelapse_Udine.mp4` |
| Naming.InnerGifReplaced | src/timelapse.py:77 | for `clip.gif.gif` the `.mp4` twin is `clip.mp4.mp4`, because every occurrence is replaced, not only the suffix |

## Left out

- Earth Engine initialisation and its error messages (src/timelapse.py:10-25) are library I/O.
- The region of interest, `Point.buffer(radius).bounds()` (src/timelapse.py:28-29), and the EPSG:3857 video projection are remote geometry on floating-point coordinates.
- `geemap.landsat_timeseries`, the band selection and `toFloat` (src/timelapse.py:35-42) are the remote fetch. The composite series is an input to the model.
- The visualisation stretch (min 0, max 0.3) and `visualize` (src/timelapse.py:67, 81) are floating-point reflectance scaling done remotely.
- `download_ee_video`, `aggregate_array(...).getInfo()` and the pixel drawing of `add_text_to_gif` (src/timelapse.py:92-96, 102, 118-126) are network calls and foreign image drawing. Only the guard on a non-empty label list is modelled (`Labels.OverlayStep`).
- The ffmpeg step through `shutil.which` and `os.system` (src/timelapse.py:135-147) is a shell and filesystem side effect.
- The `except` at src/timelapse.py:130-131 also swallows network and drawing errors. Only the label-derivation error it catches is modelled.
- `print` output and the frame duration `int(1000/fps)` passed to the drawing call are not modelled.
- main.py is not part of this model: argument parsing, geocoding and the wall-clock year range. Its call passes twelve arguments to an eleven-parameter function.
- `ms / 1000.0` is a float division in the source. It is modelled as exact integer floor division by 86 400 000, so float rounding of huge timestamps is not captured.
- `datetime`'s limits are modelled as the years 1 to 9999. Narrower limits of the platform's `gmtime` are not modelled.
- `%Y` is modelled as the unpadded decimal year. Whether `strftime('%Y')` pads years below 1000 to four digits depends on the platform's C library and the Python version, while `f"{dt.year}"` (src/timelapse.py:113) never pads. For 1000 to 9999, the only years Landsat data can carry, it is four digits either way (`Digits.DecimalLength4`).
- Smoother.Smooth: the month-index timestamps are exact only for period-start timestamps (day 1 at 00:00 UTC), which is what the composite series carries. A timestamp inside a month is not modelled at finer resolution.
- Smoother.Smooth: the series is modelled per image, with one `int` value per composite. The source's values are floats (`toFloat`, src/timelapse.py:42), and the Landsat series is cloud-masked. Earth Engine's `median()` skips masked pixels, so for a given pixel a window can lack the frame's own composite or be empty, which gives a masked output pixel. `WindowHoldsSelf`, `SmoothSingleton`, `SmoothConstant` and `SmoothedValueBounded` hold per image, and per pixel only where no pixel in the window is masked. The proved bounds carry over to real-valued, unmasked inputs.
- Smoother.Smooth: the median is abstract and assumed only to lie between the minimum and maximum of a non-empty input. Its even-count value is left open.

## Findings

| source | as written | input that shows it | evidently intended | confidence | as-written member | corrected member |
|---|---|---|---|---|---|---|
| src/timelapse.py:58-61 | `filterDate(start_win, end_win)` excludes its end date, so the window is `[t − w, t + w)`. The yearly "moving median" of a frame takes the previous year and itself, never the next year. | Yearly composites at 2000-01-01, 2001-01-01 and 2002-01-01: the 2001 frame is the median of 2000 and 2001 only | A window centred on the frame, `[t − w, t + w]`, taking 2000, 2001 and 2002 | medium; not executed | Smoother.YearlyFrameAsWritten | Smoother.YearlyFrameCentered |

`Smoother.Smooth` remains the model of the code as written. In the source, the smoothed collection is what is visualised and downloaded as the video's frames (src/timelapse.py:81, 92-96). The half-open window therefore changes the frames' pixel values, but not the labels, which come from the original collection (src/timelapse.py:102). Nothing in the model consumes `Smooth`'s output. `Smoother.SmoothCentered` is the corrected definition. Its window is symmetric (`Smoother.CenteredWindowSymmetric`).
