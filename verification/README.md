# Open Graph image generator: XML escaper and dot placement

The repository renders a field of dots as a generative page background. Its
build script `scripts/generate-og.py` draws a static version of that field as
the site's Open Graph SVG image. This project models the two self-contained
pieces of that script:

- `xml_escape.dfy`, module `XmlEscape`: `_escape_xml`. The model is the escaper
  as written: five successive one-character replacements, ampersand first
  (`EscapeXml`, built on `Replace`, a model of Python's `str.replace`).
  Two partners sit beside it. `EscapeEach` escapes each character on its own,
  and `Unescape` maps the five predefined entities of section 4.6 of
  XML 1.0 (Fifth Edition) back to their characters. The lemmas prove four things:
  - the replacement chain escapes character by character, so no entity is escaped twice;
  - the output is well escaped;
  - escaping is a bijection onto the well-escaped strings;
  - text without special characters passes through unchanged.
- `og_dots.dfy`, module `OgDots`: the rejection-sampling loop of
  `generate_svg`. It covers the padded safe rectangle around the title,
  candidate centres drawn over the canvas, rejection inside the rectangle,
  the radius `rMin + (rMax - rMin)·u²`, and the opacity that fades towards the
  edges. The loop stops at the dot count or at forty attempts per dot.
  `PlaceDots` is the loop with invariants. `Step` and `Run` are the same loop
  as functions. With them, `MoreDotsExtend` proves that asking for more dots
  with the same random draws only appends dots.

Python's `random.Random` is replaced by the sequence `rng` of values its
`random()` returns. Each is in [0, 1), and they are consumed in the program's
order: two per attempt for the centre and a third for the radius of an
accepted centre. `uniform(a, b)` is `a + (b - a)·random()`, as CPython defines
it. All arithmetic is exact `real` arithmetic.

## Model

| member | source | states |
|---|---|---|
| XmlEscape.Replace | scripts/generate-og.py:11-15 | `str.replace` of one character returns its input unchanged when the character does not occur |
| XmlEscape.EscapeXml | scripts/generate-og.py:9-16 | the escaper itself: the five replacements in the source's order, ampersand first; it carries no contract of its own, and what it computes is stated by the `XmlEscape` lemma rows below |
| XmlEscape.ReplaceRemovesAll | scripts/generate-og.py:11-15 | after a replacement whose text lacks the character, no occurrence of it is left |
| XmlEscape.EscapeXmlChar | scripts/generate-og.py:10-15 | on one character the chain gives exactly that character's entity, or the character itself when it is not special |
| XmlEscape.EscapeXmlAppend | scripts/generate-og.py:9-16 | escaping distributes over concatenation |
| XmlEscape.EscapeXmlIsPerCharacter | scripts/generate-og.py:9-16 | the chain, ampersand first, equals escaping every character independently and in order, so no entity is escaped a second time |
| XmlEscape.EscapeXmlIsEscaped | scripts/generate-og.py:9-16 | the output has no `<`, `>`, `"` or `'`, and every `&` in it opens one of `&amp;`, `&lt;`, `&gt;`, `&quot;`, `&apos;` |
| XmlEscape.EscapeXmlRoundTrip | scripts/generate-og.py:9-16 | the inverse entity mapping applied to the output gives back the input |
| XmlEscape.EscapedCharacterization | scripts/generate-og.py:9-16 | a string is well escaped exactly when escaping its unescaping gives it back, so escaping is a bijection onto the well-escaped strings |
| XmlEscape.EscapeXmlPassThrough | scripts/generate-og.py:10-15 | the output equals the input, and has the input's length, exactly when the input has none of the five special characters; it is never shorter |
| XmlEscape.GeneratorTextsUnchanged | scripts/generate-og.py:64-65 | the title and subtitle the generator escapes come out unchanged |
| OgDots.MaxAttempts | scripts/generate-og.py:40 | the attempt cap `dot_count·40` exceeds the dot count whenever dots are requested, and allows no attempt when none are |
| OgDots.SafeRect | scripts/generate-og.py:33-36 | the safe rectangle is centred on the canvas and measures `safe_w + 2·safe_pad` by `safe_h + 2·safe_pad` |
| OgDots.DefaultSafeRect | scripts/generate-og.py:21-36 | with the default arguments the safe rectangle is [74, 1126] by [154, 476], strictly inside the 1200 by 630 canvas |
| OgDots.Uniform | scripts/generate-og.py:44-45 | a uniform draw lies between its two bounds, in either order, and is the lower bound for a zero draw |
| OgDots.Radius | scripts/generate-og.py:50-51 | every radius lies between `r_min` and `r_max`, and is `r_min` for a zero draw |
| OgDots.RadiusMonotone | scripts/generate-og.py:50-51 | for `r_min <= r_max`, a larger draw never gives a smaller radius |
| OgDots.EdgeDistance | scripts/generate-og.py:53 | the edge distance is the least of the distances to the four canvas edges |
| OgDots.Fade | scripts/generate-og.py:54 | the fade lies in [0, 1]; it is 0 exactly when the edge distance is at most 6 and 1 exactly when it is at least 70; in between it is linear |
| OgDots.Opacity | scripts/generate-og.py:53-55 | every opacity lies in [0.22, 1.0]; it is 0.22 exactly when the edge distance is at most 6 and 1.0 exactly when it is at least 70 |
| OgDots.OpacityMonotone | scripts/generate-og.py:53-55 | opacity never decreases as a dot moves away from the edges |
| OgDots.Step | scripts/generate-og.py:43-57 | one attempt adds one to the attempt count and appends at most one dot, which lies outside the safe rectangle, on the canvas, with its radius in range and its opacity given by the fade law; which candidates are kept is stated by `OgDots.StepKeepsExactlyOutside` |
| OgDots.StepKeepsExactlyOutside | scripts/generate-og.py:43-57 | an attempt keeps a dot exactly when the drawn centre lies outside the closed safe rectangle; the kept dot has that centre, the radius of the third draw and the opacity of its edge distance, and the attempt takes two draws plus one for a kept dot |
| OgDots.RunAcceptsEveryAttempt | scripts/generate-og.py:42-57 | when every draw, read as an x coordinate, lies left of the safe rectangle, no candidate is rejected, so every attempt places a dot |
| OgDots.RunReachesCount | scripts/generate-og.py:40-42 | the dot-count stop is reachable: for draws that all put the centre left of the safe rectangle, the loop places exactly `dot_count` dots |
| OgDots.DefaultReachesCount | scripts/generate-og.py:21-42 | with the default arguments, draws that all lie below 74/1200 put every centre left of the safe rectangle, and the loop then places all 850 dots |
| OgDots.Run | scripts/generate-og.py:42-57 | the loop keeps all earlier dots, stops only at the dot count or the attempt cap, and never exceeds either |
| OgDots.MoreDotsExtend | scripts/generate-og.py:38-57 | with the same draws, a larger `dot_count` keeps every dot a smaller one places, in order, and only adds after them |
| OgDots.PlaceDots | scripts/generate-og.py:38-57 | the loop terminates with at most `dot_count` dots after at most `dot_count·40` attempts, stops only at one of those caps, takes two draws per attempt plus one per dot, and every dot is outside the closed safe rectangle, on the canvas, with radius between `r_min` and `r_max` and opacity in [0.22, 1.0] |

## Left out

- Seeding and sampling of `random.Random` (scripts/generate-og.py:31, 44-45, 50) are not modelled. The model takes the sequence of `random()` results as input. It requires at least three values per allowed attempt, which stands in for a generator that never runs out.
- IEEE floating point is not modelled. Arithmetic is exact, so a uniform draw never reaches its upper bound, although a float rounding can. The `:.1f`, `:.2f` and `:.3f` formatting of the coordinates is left out as well.
- The assembly of the SVG text (scripts/generate-og.py:59-77) is not modelled. It is literal markup around formatted numbers. Only the two escaped strings it embeds are covered, by `XmlEscape.GeneratorTextsUnchanged`.
- `main()` (scripts/generate-og.py:80-92) is left out: it only writes the file and prints.
- Python strings are sequences of code points, and Dafny's `char` is a Unicode scalar value. Lone surrogate code points, which Python allows, cannot be expressed.
- The particle simulation engine that renders the live page background is not part of this model.
