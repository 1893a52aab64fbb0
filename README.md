# pathstuff in Dafny

A model of `pathstuff`, a toolkit for SVG path data (the `d` attribute of
an SVG `<path>`). Path data text is read into a list of commands
`{type, values}`. The commands can be:

- expanded, so that every command carries one parameter group;
- converted from relative to absolute coordinates;
- stripped of horizontal and vertical linetos;
- measured for their bounding box;
- translated, centred, scaled or sized to a frame;
- serialized back to text, or combined with other paths into one.

The model follows `index.js` function by function, one module per part:

- `PathData` (path_data.dfy): the twenty command letters, the
  parameter-count table `paramLengths`, `isRelative`, and the command
  record.
- `Tokenizer` (tokenizer.dfy): `parse` with `trim`, the lookahead split
  before command letters, `replaceRecursive` for concatenated decimals,
  the space before concatenated negatives, the split on separators and the
  filter of empty tokens.
- `Serializer` (serializer.dfy): `stringify`.
- `Implicit` (implicit.dfy): `normalizeImplicitCommandsObj`. The slicing
  loop is kept as a method with its invariant.
- `Geometry` (geometry.dfy): `applyXY`, with the part each parameter
  plays, and `getEndPoint`.
- `Absolute` (absolute.dfy): `toAbsoluteObj`. It re-expands the remaining
  path at every step, as the source does. It is related to one walk over
  the once-expanded path, and through it to the pens the path passes
  through.
- `HV` (hv.dfy): `normalizeHVObj` as written, and a corrected pass (see
  Findings).
- `BBox` (bbox.dfy): `getX`, `getY`, `getBBoxObj`, `translateObj`,
  `centerObj`, `scaleObj` and `sizeObj`.
- `Combine` (combine.dfy): `combine`.

Numbers are mathematical reals.

`normalizeHVObj` (index.js:300-332) remembers all of the previous output
command's values (for a C, `values.slice(4)`); an H reads the second of
them and a V the first. After a Q, S or A these are not the end point; see
Findings.

## Model

| member | source | states |
|---|---|---|
| PathData.LetterChar | index.js:20 | a letter is spelt by a lower case character exactly when it is relative, by an upper case one exactly when it is absolute |
| PathData.FromChar | index.js:9 | exactly the twenty characters of the split class read back as a letter, and each reads back as the letter spelt by it |
| PathData.LetterCharRoundTrip | index.js:9 | every letter is spelt by a command character that reads back as that letter |
| PathData.ParamLength | index.js:21-40 | every count is between 1 and 7; it is 1 exactly for H and V; it is even for every other kind but the arc |
| PathData.IsRelative | index.js:20 | a command is relative exactly when its type character is lower case |
| PathData.ToUpper | index.js:132 | the upper case form keeps the kind, is absolute, and its character is the lower case character moved down by 32 |
| Implicit.Chunks | index.js:49-52 | the slices are empty exactly when there are no values |
| Implicit.ChunksFlatten | index.js:49-52 | the slices, concatenated, are the values |
| Implicit.ChunksSizes | index.js:49-52 | every slice holds 1 to n values; all but the last hold n; when the count is a multiple of n, all of them do |
| Implicit.ChunkValues | index.js:49-52 | the slicing loop yields exactly the slices |
| Implicit.Continuation | index.js:54 | groups after the first of an M become L and of an m become l; every other type and the case are kept |
| Implicit.ExpandOne | index.js:43-59 | a command without values is kept, and a close-path loses any values it carries; the first output command keeps the type, later ones take the continuation type; the values are kept in order; a well-grouped command gives single-group commands |
| Implicit.ExpandImplicit | index.js:41-61 | the output is at least as long as the input and starts with the input's type; every output command holds at most one group; well-grouped input gives single-group output |
| Implicit.ExpandedIsFixed | index.js:43-59 | a command with at most one group expands to itself |
| Implicit.ExpandFixpoint | index.js:41-61 | a path of such commands is left unchanged |
| Implicit.ExpandIdempotent | index.js:41-61 | expanding twice is expanding once |
| Implicit.ExpandAppend | index.js:41-61 | expansion works command by command: the expansion of two paths joined is the two expansions joined |
| Implicit.ExpandKeepsValues | index.js:41-61 | every number of the input appears in the output, in order |
| Geometry.ApplyXY | index.js:62-89 | one output value per input value; each is the x function, the y function, a radius function (or identity) or identity, by the part its index plays in the command |
| Geometry.RelativeEndPoint | index.js:90-127 | a relative command ends at the current point plus the end of its upper case form read from the origin; the subpath start plays no part |
| Geometry.EndPoint | index.js:90-127 | a close-path returns to the subpath start; an H keeps the current y and a V the current x; an absolute H ends at x = its last value and an absolute V at y = its last value; any other absolute command ends at its last pair of values |
| Absolute.AbsoluteCommand | index.js:131-139 | the type is upper cased; a relative command has every x coordinate shifted by the current x and every y coordinate by the current y; radii, rotation and flags are kept |
| Absolute.EndPointOfAbsolute | index.js:90-127 | converting a single command does not move its end point |
| Absolute.ToAbsolute | index.js:128-143 | one output command per command of the expanded input |
| Absolute.ToAbsoluteIsWalk | index.js:128-143 | re-expanding the rest at every step is the same as walking the once-expanded path with the pen |
| Absolute.WalkKeepsTrace | index.js:140-142 | the converted walk passes through the same pens as the path it converts |
| Absolute.ToAbsoluteShape | index.js:131-139 | every output command is absolute, carries one group, and has the kind of the expanded command it comes from |
| Absolute.ToAbsoluteOfExpanded | index.js:130 | expanding before the conversion changes nothing |
| Absolute.ToAbsoluteKeepsTrace | index.js:128-143 | the output moves through the same end points and subpath starts as the expanded input |
| Absolute.ToAbsoluteOfAbsolute | index.js:128-143 | a path without relative commands is only expanded |
| Absolute.ToAbsoluteIdempotent | index.js:128-143 | converting the output again, from any pen, gives it back |
| Absolute.ToAbsoluteAppend | index.js:128-143 | converting two paths joined is converting the first, then the second from the pen the first leaves |
| Absolute.WalkAt | index.js:131-141 | the i-th converted command is the i-th command rewritten at the current point the pen reaches after the i commands before it |
| Absolute.TraceAt | index.js:140-141 | each pen is the one before it advanced over its command |
| Absolute.StartKept | index.js:141 | after a moveto, until the next moveto, the subpath start is where that moveto ended |
| Absolute.ClosePathReturns | index.js:121-123 | a close-path returns the pen to where the last moveto ended |
| Tokenizer.TrimStart | index.js:8 | removes exactly the leading white space: a suffix of the input, what is cut is all space, and what is left does not start with space |
| Tokenizer.TrimEnd | index.js:8 | removes exactly the trailing white space, in the same sense |
| Tokenizer.Trim | index.js:8 | defined by its body as TrimEnd after TrimStart, whose contracts state that exactly the white space at either end is cut; TrimKeepsLetters states that the command letters stay |
| Tokenizer.TrimKeepsLetters | index.js:8 | trimming text that starts with a non-space keeps the first character and every command letter |
| Tokenizer.NextLetter | index.js:9 | the first command letter at or after i, or the end of the text when there is none |
| Tokenizer.SplitBeforeLetters | index.js:9 | at least one chunk; every chunk after the first starts with a command letter; no chunk holds a command letter after its first character; the first chunk starts the text |
| Tokenizer.SplitBeforeLettersFlatten | index.js:9 | the chunks, concatenated, are the text |
| Tokenizer.ChunksFollowLetters | index.js:9 | text that starts with a command letter gives one chunk per command letter, each starting with its letter |
| Tokenizer.ScanSecondDot | index.js:2 | the scan finds the leftmost dot that ends a match of the decimal pattern, and finds none only when the pattern does not occur |
| Tokenizer.LeftmostMatch | index.js:12 | the leftmost end of a match of `[0-9]*\.[0-9]*\.`, or none when the pattern does not occur |
| Tokenizer.ReplaceRecursive | index.js:1-5 | the result is the input with only spaces added, and the pattern no longer occurs in it; it equals the one-pass scan that puts a space before exactly each dot following a '.' and then only digits; text without the pattern is returned unchanged |
| Tokenizer.SpaceBeforeMinus | index.js:13 | only spaces are added, the first character is kept, and afterwards no '-' directly follows a digit or '.'; the result is the text with a space before exactly each '-' that follows a digit or '.', so text with no such '-' is returned unchanged |
| Tokenizer.SplitOnSeparators | index.js:14 | one piece more than there are separators; the pieces hold no separator and spell the text without its separators |
| Tokenizer.SplitRejoins | index.js:14 | piece i is the text between separators i - 1 and i: putting the separators back between the pieces gives the text |
| Tokenizer.NonEmpty | index.js:15 | only non-empty pieces are kept, each taken from the input, and together they spell the same text; the result is a subsequence of the input, in order, with as many elements as the input has non-empty strings |
| Tokenizer.NonEmptyUnique | index.js:15 | any in-order choice of non-empty strings with that many elements is the filter's result, so the filter keeps all non-empty strings in order and nothing else |
| Tokenizer.SpacesVanish | index.js:12-14 | the spaces put in before a second dot or a minus are separators, so they vanish with the separators |
| Tokenizer.DotFreeNoMatch | index.js:2 | the token-level scan finds no second dot exactly when `[0-9]*\.[0-9]*\.` does not occur |
| Tokenizer.DotFreeSpaces | index.js:12-13 | putting in spaces creates no match of the decimal pattern |
| Tokenizer.DotFreePieces | index.js:14 | splitting on separators creates no match of the decimal pattern in any piece |
| Tokenizer.Tokens | index.js:14-15 | the tokens are non-empty, hold no separator, and spell the text without its separators; a text free of minus and decimal clashes gives tokens free of them |
| Tokenizer.TokensOfRun | index.js:14-15 | a text without separators is one token, or none when empty |
| Tokenizer.TokensAtSeparator | index.js:14-15 | the tokens of two texts joined by a separator are the tokens of the first followed by those of the second; with TokensOfRun this fixes the tokens of every text |
| Tokenizer.Payload | index.js:12-15 | the number tokens spell the payload without its separators; each is non-empty, holds no separator, has no '-' directly after a digit or '.', and no longer holds a match of `[0-9]*\.[0-9]*\.`; a payload with no such match and no '-' after a digit or '.' gives exactly its tokens |
| Tokenizer.ParseChunk | index.js:10-17 | the type is the chunk's first character, and there is one number per token of the rest of the chunk |
| Tokenizer.Parse | index.js:6-17 | one raw command per chunk of the trimmed text, and at least one; every command but the first has a command letter for its type |
| Tokenizer.ParseTypes | index.js:6-17 | when the trimmed text starts with a command letter, the parsed types are exactly its command letters, in order |
| Serializer.Typed | index.js:9-11 | a raw command has a typed reading exactly when its type is one command letter; the reading spells that letter and keeps the numbers |
| Serializer.Join | index.js:19 | no parts give the empty text, and one part gives itself |
| Serializer.CommandText | index.js:19 | a command's text starts with its type letter |
| Serializer.Stringify | index.js:18-19 | only the empty path gives the empty text, and the text starts with the first command's letter |
| Serializer.StringifyAppend | index.js:18-19 | the text of two paths joined is the two texts joined |
| Serializer.StringifyLetters | index.js:18-19 | when the printer writes no command letter, the command letters of the text are the types of the path, in order |
| Serializer.ParseStringifyTypes | index.js:6-19 | reading back the text of a non-empty path gives one command per command, each with that command's type |
| Serializer.ParseStringifyTyped | index.js:6-19 | reading back the text of a non-empty path and typing each command gives the path's own letters, one per command |
| Serializer.ParseStringifyEmpty | index.js:6-19 | the empty path writes the empty text, which reads back as one command with an empty type and no values |
| HV.NormalizeHV | index.js:300-332 | one output command per input command and no H or V left; an H keeps its x and takes the second tracked number for y; a V keeps its y and takes the first tracked number for x; every other command is kept; what is tracked is the previous output command's values, from index 4 on for a C |
| HV.NormalizeHVFixed | index.js:300-332 | the corrected pass: one output command per input command and no H or V left; every other command is kept |
| HV.NormalizeHVFixedKeepsTrace | index.js:300-332 | the corrected pass moves no end point and no subpath start |
| HV.NormalizeHVAgrees | index.js:323-329 | on paths of absolute single M, L, T, C, H and V commands, the pass as written is the corrected one |
| HV.QuadraticThenHAsWritten | index.js:305-313 | as written, `M 0 0 Q 1 2 3 4 H 5` becomes `M 0 0 Q 1 2 3 4 L 5 2` |
| HV.QuadraticThenHTrace | index.js:90-127 | that path ends its H at (5, 4) |
| HV.QuadraticThenHAsWrittenTrace | index.js:329 | the output of the pass as written ends its lineto at (5, 2) |
| HV.QuadraticThenHCorrected | index.js:305-306 | the corrected pass makes the H a lineto to (5, 4) |
| HV.HVAfterQuadratic | index.js:300-332 | the discrepancy in one place: as written the H goes to (5, 2), and corrected it goes to (5, 4), where the original H ends |
| Combine.FixLeadingMove | index.js:263-286 | a path that does not start with `m` is kept; otherwise the rest of the path is kept, and the new first command has the same kind but is not `m` |
| Combine.RewrittenMoveValues | index.js:264-283 | the commands that replace a leading `m` hold its numbers, in order |
| Combine.FixLeadingMoveKeepsValues | index.js:263-286 | the rewrite keeps every number, in order |
| Combine.ExpandMoveSplit | index.js:264-275 | an `m` with several pairs expands as an `m` of the first pair followed by the expansion of an `l` of the others |
| Combine.FixLeadingMoveGrouped | index.js:263-286 | the rewrite keeps well-formed paths well formed |
| Combine.FixLeadingMoveMeaning | index.js:263-286 | from any pen, the rewritten path converts exactly as the original does from the origin |
| Combine.AbsoluteMoveMeaning | index.js:285 | a path that starts with `M` converts the same from any pen |
| Combine.SingleMoveMeaning | index.js:276-283 | a leading `m` of one pair made `M` converts from any pen as the `m` does from the origin |
| Combine.SplitMoveMeaning | index.js:264-275 | a leading `m` of several pairs made `M` and `l` converts from any pen as the `m` does from the origin |
| Combine.CombineKeepsValues | index.js:260-288 | combining keeps every number of every path, in order |
| Combine.CombineObj | index.js:260-288 | defined by its body; CombineKeepsValues and CombineMeaning state that it keeps every number and draws each part as drawn apart |
| Combine.Combine | index.js:260-288 | the joined texts of the rewritten paths are the text of the joined rewritten paths |
| Combine.CombineMeaning | index.js:260-288 | when every part starts with a moveto, the combined path converts, from any pen, to the parts converted apart, one after the other |
| BBox.PickMembers | index.js:155-163 | the filter keeps exactly the values at the indices with the given remainder |
| BBox.GetXYAreCoordinates | index.js:144-187 | outside arcs, an absolute command contributes only x coordinates to its x values and only y coordinates to its y values |
| BBox.EndPointPicked | index.js:144-187 | the end point of an absolute single command other than an arc or close-path is among its x values (unless it is a V) and its y values (unless it is an H) |
| BBox.ArcEndPointBetween | index.js:146-148 | an absolute arc with non-negative radii ends between the two x values and between the two y values it contributes |
| BBox.AllX | index.js:190 | defined by its body as the x values of every command, command after command; AllXYHas states that each command's x values are among them and AllXYAffine that they move with the path |
| BBox.AllY | index.js:193 | defined by its body as the y values of every command, command after command; AllXYHas and AllXYAffine state the same for them |
| BBox.AllXYHas | index.js:190-193 | each command's values are among the path's values |
| BBox.Min | index.js:191 | the minimum is an element, and no element is smaller |
| BBox.Max | index.js:192 | the maximum is an element, and no element is larger |
| BBox.GetX | index.js:144-165 | defined by its body; GetXYAreCoordinates, EndPointPicked and ArcEndPointBetween state what the values are |
| BBox.GetY | index.js:166-187 | defined by its body; the same lemmas state what the values are |
| BBox.Absolutized | index.js:189 | defined by its body; AbsolutizedIsAbsolute and BoxOfAbsolutized state that it has no relative command and keeps the box |
| BBox.SpansUnique | index.js:196-201 | a list has one smallest interval holding it |
| BBox.GetBBox | index.js:188-202 | the box is the smallest interval holding every x value across and every y value down, taken over the converted path when any command is relative |
| BBox.SpanBox | index.js:190-201 | the box from the least and greatest values spans both lists |
| BBox.BoxHoldsEndPoints | index.js:188-202 | the box holds the end point of every absolute single command (its x unless a V, its y unless an H), arcs with non-negative radii included |
| BBox.GetXYAffine | index.js:144-187 | when a command's coordinates and radii are moved by maps on each axis, its x and y values move by the same maps |
| BBox.AllXYAffine | index.js:190-193 | the same for all the values of a path without relative commands |
| BBox.SpansAffine | index.js:191-201 | a non-decreasing affine map sends the smallest interval of a list to that of the mapped list |
| BBox.BoxAffine | index.js:188-202 | the box of such a path, moved by non-decreasing maps, is the moved box |
| BBox.Translate | index.js:204-214 | the path is converted to absolute, then every x coordinate moves by dx and every y by dy; radii, rotation and flags are kept |
| BBox.TranslateCommand | index.js:205-213 | one command keeps its type, and its x and y coordinates move by dx and dy |
| BBox.TranslateBox | index.js:204-214 | the translated path's box is the converted path's box moved by (dx, dy), with the same size |
| BBox.AbsolutizedIsAbsolute | index.js:189 | the path the box is taken over has no relative command, and taking it again changes nothing |
| BBox.ShiftedToCentre | index.js:218-221 | moving a box by the offsets centerObj computes puts its centre at the origin |
| BBox.BoxOfAbsolutized | index.js:216-217 | converting first does not change the box |
| BBox.AbsolutizedIsFixed | index.js:216-218 | when every command is single or one is relative, converting the converted path again changes nothing |
| BBox.CenterBox | index.js:215-222 | the centred path's box keeps its width and height, and its centre is the origin |
| BBox.Center | index.js:215-222 | defined by its body; CenterBox states that the box keeps its size and is centred on the origin |
| BBox.FactorY | index.js:227 | a missing or zero y factor is the x factor |
| BBox.Scale | index.js:226-249 | the path keeps its letters; every x coordinate and x radius is multiplied by sx and every y coordinate and y radius by the y factor |
| BBox.ScaleCommand | index.js:236-248 | one command keeps its type, and its coordinates and radii are multiplied by the factors |
| BBox.ScaleBox | index.js:226-249 | scaling by non-negative factors scales the box |
| BBox.RatioFits | index.js:255 | the smaller ratio scales the box into the frame, filling it across or down, with its aspect ratio kept |
| BBox.SizeFits | index.js:253-257 | the sized path's box fits the frame, fills it in one direction and keeps the aspect ratio |
| BBox.Size | index.js:253-257 | defined by its body; SizeFits states that the box fits the frame, fills it one way and keeps its aspect ratio |

## Left out

- `compress` and `compressObj` (index.js:291-297) round numbers with `toFixed`. That is decimal formatting of floating point, and it is not part of this model.
- The string wrappers are not modelled on their own: `getBBox`, `center`, `translate`, `scale`, `size`, `toAbsolute`, `normalizeImplicitCommands` and `normalizeHV` each compose `parse` and `stringify` with the object-level function. The default export is not modelled either.
- Reading a number token (JavaScript's unary `+`) is the parameter `num`.
- Printing a number inside `values.join(" ")` is the parameter `show`.
- Numbers are reals: there is no NaN, no Infinity and no floating-point rounding.
  - A malformed token, an arc without radii, or a division by a zero width has no counterpart in the model; these are the cases where the source would produce NaN or Infinity.
  - `sizeObj`'s default of Infinity for `w` and `h` is not modelled; `Size` takes both sizes.
- `scaleObj` also accepts functions for its factors. Only numbers are modelled.
- `!y` holds for both a missing y and `0`. The model writes this as `None` or `0`.
- Unknown command letters have no command type: `Parse` keeps the raw one-character type, and `Typed` reads only the twenty command letters. Every later operation works on typed commands, so the source's default branches for unknown types (getEndPoint's `[x, y]`, for example) are not reachable in the model.
- Degenerate inputs are preconditions rather than error paths:
  - The conversion needs `AllGrouped`: every command other than a close-path carries a whole, positive number of parameter groups, and a close-path carries none.
  - The box needs `HasExtent`: arcs are complete, and there is at least one x value and one y value. The source would produce Infinity otherwise.
  - The H/V pass needs `HVReady`: every H and V finds the tracked numbers it reads.
- `combine` is modelled on parsed paths (`CombineObj`). `Combine` states that its text is the text of that command list. Parsing each input string is not repeated there.
- `Combine.FixLeadingMove` returns an empty path unchanged. `parse` never yields one.
- BBox.CenterBox: proved only when the path has a relative command or every command is single. For an absolute path with repeated parameter groups, the box is measured before `translateObj` expands the path.
- BBox.ScaleBox: proved only for paths without relative commands and for non-negative factors. A negative factor swaps the least and the greatest value.
- BBox.SizeFits: proved under the same conditions as ScaleBox, with a box of positive width and height and non-negative frame sizes.
- Serializer.ParseStringifyTypes: the round trip is proved for command types only, and only for a printer that writes no command letter. Reading the numbers back depends on `num` and `show`, which the model does not constrain.
- Serializer.ParseStringifyTyped: the same limits apply. It gives back the letters of the path, not its numbers.
- HV.NormalizeHVFixed: its own ensures do not say where a rewritten H or V goes. `NormalizeHVFixedKeepsTrace` states it: the pen passes through the same points as before the pass.

## Findings

| source | as written | input that shows it | evidently intended | confidence | as-written member | corrected member |
|---|---|---|---|---|---|---|
| index.js:329 | after any command other than C, the pass tracks all of that command's values, and a following H (V) takes the second (first) of them for its missing coordinate; after Q, S or A these are a control point or a radius, not the end point | `M 0 0 Q 1 2 3 4 H 5` becomes `... L 5 2`, while the H ends at (5, 4) | the missing coordinate is the current point's, so the result is `L 5 4` and no end point moves | not executed | HV.HVAfterQuadratic | HV.NormalizeHVFixedKeepsTrace |
