# Delay badge: a Dafny model

The delay badge (`components/ui/DelayBadge.tsx`) tells a player when a wanted
entity can be expected to reappear. It takes three inputs: the time the entity
was last seen, which may be absent; a reappearance window `[minDelay, maxDelay]`
in minutes; and the current time. From these it derives the minutes elapsed
since the last sighting and renders three things:

- a text: a "?" glyph, or a countdown such as "~2h 5m" or "~20m";
- a colour: gray, red or green;
- a tooltip: when the entity was last seen, and then either "any time" or the
  clock time at which the window opens or closes.

The model is pure, as the component's logic is. It consists of:

- `DelayBadge.Render`: the whole component;
- `DelayDisplay`, `DelayColor` and `TooltipText`: the three inner functions;
- `TimeDisplay`: the hours and minutes countdown;
- `ElapsedMinutes` and `ReappearTime`: the constant bindings at the top of
  the component;
- `Categorize` and `Classify`: a reference classification into `Unknown`,
  `Overdue`, `BeforeMin` and `InWindow`;
- `RemainingMinutes`: the countdown value that goes with a category.

The lemmas prove three things about this model:

- The text, the colour and the tooltip always pick the same category.
- Both ends of the window belong to it.
- A countdown is never negative, and it runs out at the time the tooltip names.

Timestamps are integer milliseconds, as `Date.getTime()` returns them. The
delays, the elapsed minutes and the countdown are exact reals. JavaScript's
truncating `%` and the truncation that `new Date` applies to fractional
milliseconds are written out in module `Js`.

The component does not check `minDelay <= maxDelay`, so the model does not
require it either. It keeps the component's order of tests: the overdue test
comes first, then the before-minimum test. Only `WindowBoundsInclusive`
assumes a well-formed window, because it talks about both ends at once.

## Model

| member | source | states |
|---|---|---|
| `Js.Trunc` | components/ui/DelayBadge.tsx:31-32 | the integer returned is the real truncated toward zero: it lies within one unit of it, on the side of zero |
| `Js.Remainder` | components/ui/DelayBadge.tsx:36 | JavaScript's `%` for a positive divisor: the remainder takes the sign of the dividend, in `[0, d)` for a non-negative dividend and in `(-d, 0]` for a negative one; what it takes away from the dividend is a whole multiple of the divisor |
| `DelayBadge.HoursPart` | components/ui/DelayBadge.tsx:35 | `Math.floor(minutes / 60)`: the whole hours `h` with `60h <= minutes < 60h + 60` |
| `DelayBadge.MinutesPart` | components/ui/DelayBadge.tsx:36 | `Math.floor(minutes % 60)`: in `[0, 60)` for non-negative minutes and at most 0 for negative ones; `HoursMinutesSplit` and `NegativeSplit` relate it to the hours |
| `DelayBadge.ElapsedMinutes` | components/ui/DelayBadge.tsx:28 | elapsed minutes times 60000 are exactly the milliseconds since the last sighting; they are positive exactly when the sighting is in the past |
| `DelayBadge.ReappearTime` | components/ui/DelayBadge.tsx:31-32 | the reappearance time is within one millisecond of `lastSeenAt + delay*60000`, and equals it exactly for a whole number of minutes |
| `DelayBadge.Categorize` | components/ui/DelayBadge.tsx:49-53 | overdue exactly when elapsed exceeds `maxDelay`; before the minimum exactly when elapsed is below `minDelay` and not overdue; in the window exactly when `minDelay <= elapsed <= maxDelay`, with both ends included |
| `DelayBadge.Classify` | components/ui/DelayBadge.tsx:19-25 | the category is `Unknown` exactly when there is no last-seen time |
| `DelayBadge.RemainingMinutes` | components/ui/DelayBadge.tsx:29-30 | a countdown exists exactly in the before-minimum and in-window categories; it is never negative, and it is strictly positive before the minimum |
| `DelayBadge.HoursMinutesSplit` | components/ui/DelayBadge.tsx:35-36 | for `m >= 0`, with JavaScript's truncating `%`, the whole hours are non-negative, the whole minutes lie in `[0, 60)`, and `hours*60 + mins == floor(m)` |
| `DelayBadge.TotalMinutesAppend` | components/ui/DelayBadge.tsx:40-42 | the minutes denoted by the hours label followed by the minutes label are the sum of the two |
| `DelayBadge.TimeDisplay` | components/ui/DelayBadge.tsx:34-46 | at most two labels, hours before minutes; at least one label exactly when the countdown is non-negative; an hours label is shown only with a positive value, and leads exactly when the countdown is at least 60 minutes; a second (minutes) label is shown only with a positive value; the first rendered label, and no other, carries "~"; the labels together denote `floor(m)` minutes; a minutes label is below 60 |
| `DelayBadge.DelayDisplay` | components/ui/DelayBadge.tsx:48-54 | the text is "?" exactly in the overdue category; otherwise it is a countdown of one or two labels whose first carries "~" |
| `DelayBadge.DelayColor` | components/ui/DelayBadge.tsx:56-59 | the colour is the one of the category: gray when overdue, red before the minimum, green in the window |
| `DelayBadge.TooltipText` | components/ui/DelayBadge.tsx:61-73 | the tooltip always names the last-seen time; its second line is "any time" exactly when overdue; it is the window opening (`lastSeenAt + minDelay`) exactly before the minimum, and the window closing (`lastSeenAt + maxDelay`) exactly inside the window |
| `DelayBadge.Render` | components/ui/DelayBadge.tsx:17-93 | no last-seen time gives a gray "?" with no tooltip; the colour always matches the category; a tooltip is present exactly when a last-seen time is; a countdown is shown exactly when a remaining time exists |
| `DelayBadge.NegativeSplit` | components/ui/DelayBadge.tsx:35-42 | a negative number of minutes gives negative hours and, with JavaScript's `%` taking the dividend's sign, no positive minutes, so neither unit is rendered |
| `DelayBadge.NeverSeen` | components/ui/DelayBadge.tsx:19-25 | with no last-seen time the badge is a gray "?" without a tooltip, and there is no countdown |
| `DelayBadge.OverdueBadge` | components/ui/DelayBadge.tsx:48-66 | past `maxDelay` the badge is a gray "?" with the "any time" tooltip and no countdown |
| `DelayBadge.BeforeMinBadge` | components/ui/DelayBadge.tsx:48-69 | below `minDelay` the countdown is `minDelay - elapsed`, the colour red, and the tooltip names the window opening |
| `DelayBadge.InWindowBadge` | components/ui/DelayBadge.tsx:48-73 | inside the window the countdown is `maxDelay - elapsed`, the colour green, and the tooltip names the window closing |
| `DelayBadge.WindowBoundsInclusive` | components/ui/DelayBadge.tsx:49-53 | `elapsed == minDelay` and `elapsed == maxDelay` are both in the window; at `maxDelay` the badge shows a green "~0m", not the overdue "?" |
| `DelayBadge.PartsAgree` | components/ui/DelayBadge.tsx:48-73 | for a seen entity, "?" goes with gray and with "any time"; red goes with the window-opening tooltip; green goes with the window-closing tooltip |
| `DelayBadge.CountdownMeetsTooltip` | components/ui/DelayBadge.tsx:28-32 | `now + remaining*60000` is exactly the opening time (before the window) or closing time (inside it), and truncating it gives the time the tooltip shows |
| `DelayBadge.CategoryOnlyAdvances` | components/ui/DelayBadge.tsx:28-53 | as the current time grows, the category only moves forward: before the minimum, then in the window, then overdue |
| `DelayBadge.ScenarioBeforeMin` | components/ui/DelayBadge.tsx:28-58 | seen 10 minutes ago with window 30 to 120: the countdown is 20 minutes, the badge is a red "~20m" |
| `DelayBadge.ScenarioInWindow` | components/ui/DelayBadge.tsx:28-58 | seen 90 minutes ago with window 30 to 120: the countdown is 30 minutes, the badge is a green "~30m" |
| `DelayBadge.ScenarioHours` | components/ui/DelayBadge.tsx:34-46 | 125 minutes render as "~2h" then "5m"; 120 minutes render as "~2h" alone |

## Left out

- React/JSX rendering, the CSS class strings (only the three-way colour choice is kept), and the tooltip components with their touch handling: these are presentation framework code.
- The `NumberFlow` roll-up animation: this comes from a third-party library. A label keeps only the value, the "~" prefix and the unit suffix that the component passes to it.
- Translation through `t(...)` and clock formatting through `toLocaleTimeString('fr-FR', ...)`: a tooltip is modelled as message keys plus timestamps, not as text.
- `Date.now()` is passed in as the parameter `now`.
- IEEE double rounding is not modelled: the division at line 28, the `%` at line 36 and the products at lines 31-32 are computed exactly.
- NaN and infinite delays are not modelled. A comparison with NaN is false, so a NaN `maxDelay` is never overdue: below `minDelay` the badge counts down normally, and otherwise it takes the in-window branch with an empty green span. A NaN `minDelay` never gives the before-minimum branch.
- The ±8.64e15 ms limit of `new Date` (lines 31-32) is not modelled: beyond it the component would get an Invalid Date.
- `!lastSeenAt` is modelled as "the value is absent". A `Date` object is always truthy, so an invalid `Date` takes the seen branch; invalid dates are not modelled.
- `minDelay <= maxDelay` is not required here, because the component does not check it. With an inverted window, no elapsed time is in the window: it is either before the minimum or overdue.
- An entity never seen gets no tooltip at all (components/ui/DelayBadge.tsx:19-25); the model gives it none.
- `next-i18next.config.ts` is static locale configuration with no logic, and is not part of this model.
