# Page script core: FAQ accordion, particle pool, salary counter

`script.js` enhances a marketing page. Most of it binds browser events to
style changes. This project models the three parts of it that follow rules
which can be stated without a browser:

- **The FAQ accordion** (`accordion.dfy`, module `Accordion`). Each `.faq-item`
  has an `active` class. Its `.faq-toggle` shows a glyph and a CSS rotation.
  A click on an item's question closes every other item, resetting its
  toggle to `'+'` and `rotate(0deg)`. It then flips the clicked item. An item
  that opens shows the minus glyph and `rotate(180deg)`; one that closes
  shows `'+'` and `rotate(0deg)`.
  - The class `FaqList` holds the item list as three arrays: the `active`
    flags, the toggle texts and the toggle transforms.
  - Its `Click` method loops over the items as the handler does. Its result
    is specified by the pure function `AfterClick`, and the lemmas state the
    handler's rules about that function.
  - The minus glyph is modelled exactly as the script writes it. The script
    has U+2212 stored as the three characters `â`, `ˆ`, `’` (U+00E2 U+02C6
    U+2019), which is UTF-8 read back as Windows-1252.
- **The particle pool** (`particles.dfy`, module `Particles`). Start-up
  creates a container and appends 20 particles. When a particle's timer
  fires, and only if that particle is still attached, the particle is
  removed and one new particle is appended.
  - A particle is modelled by its identity only. The field `next` is the
    identity the next created particle gets, so every new particle is
    distinct from all earlier ones.
  - The class `ParticleField` holds the container's children as a sequence.
    Its methods are specified by the pure functions `Spawn`, `Start` and
    `AfterExpiry`. A timer firing is modelled as an explicit `Expire(p)` call.
- **The salary counter's number split** (`salary_number.dfy`, module
  `SalaryNumber`). `animateNumber` finds the leftmost match of
  `(\d+\.?\d*)` in an element's text. It keeps the text before the match as a
  prefix and the text after it as a suffix. The match is written out as a
  scan:
  - skip to the first ASCII digit;
  - take the longest digit run;
  - then an optional `.` and a second digit run.
  `IsNumeral` is an independent definition of the strings the pattern
  matches in full: a leading digit, then only digits and at most one `.`.
- **The "animate once" guard** (`salary_observer.dfy`, module
  `SalaryObserver`). The intersection-observer callback adds the class
  `animated` to a visible amount that does not yet have it, and then calls
  `animateNumber` on that amount.
  - The class `AmountObserver` records the set of elements carrying
    `animated` and the sequence of `animateNumber` calls.
  - Its callback method loops over a batch of entries. It is specified by
    the pure fold `Observe`.

Four behaviours of the code are easy to get wrong:

- **Two clicks on the same item.** One might expect two clicks to restore
  the state before the first. They do not: the first click closes every
  sibling for good. So two clicks close all items when the clicked item was
  closed. When it was open, two clicks reopen it, alone.
- **Unknown item ids.** A handler is bound to each item, so a click always
  names a real item. The model has no "unknown item" case.
- **Particle count during a swap.** The removal and the replacement happen
  in one callback. So the count is exactly 20 between events, never 19.
- **Amounts marked `animated` by the markup.** The guard only asks whether
  the class is present. An amount that carries `animated` when the page
  loads is therefore never counted up. The observer starts from that set.

## Model

| member | source | states |
|---|---|---|
| `Accordion.AfterClick` | script.js:24-47 | a click keeps the number of items |
| `Accordion.ClickClosesOthers` | script.js:28-35 | after a click on item i, every other item is inactive and shows '+' with rotate(0deg) |
| `Accordion.ClickFlips` | script.js:25-46 | the clicked item's active flag flips; it opens with the minus glyph and rotate(180deg), or closes with '+' and rotate(0deg) |
| `Accordion.ClickEstablishesInvariant` | script.js:24-47 | whatever the state before, one click leaves at most one item active and every toggle agreeing with its item's flag |
| `Accordion.AfterClicks` | script.js:18-48 | any sequence of clicks keeps the number of items |
| `Accordion.ClicksKeepInvariant` | script.js:18-48 | after any non-empty sequence of clicks: same number of items, at most one active, every toggle agreeing |
| `Accordion.DoubleClick` | script.js:25-46 | two clicks on item i restore i's own flag, now with a matching toggle, and close all others; so every item ends closed exactly when i started closed |
| `Accordion.ThreeItemScenario` | script.js:24-47 | three closed items: clicking the 2nd opens it alone, then clicking the 3rd opens it alone, then clicking the 3rd again closes all |
| `Accordion.FaqList.constructor` | script.js:18-24 | the handler's item list holds the page's items, in document order |
| `Accordion.FaqList.Click` | script.js:24-47 | the in-place handler leaves exactly the state `AfterClick` describes: at most one item active, every toggle agreeing |
| `Particles.Spawn` | script.js:165-181 | creating a particle keeps the earlier children in order and appends one identity at or above `next`, then advances `next`; since every earlier identity is below `next`, the new one was never seen before |
| `Particles.SpawnMany` | script.js:160-162 | n creations append n distinct new particles after the existing children |
| `Particles.Start` | script.js:146-163 | start-up with `count` creations (20 on the page) leaves exactly that many distinct particles in the container |
| `Particles.Remove` | script.js:185-186 | removing p keeps exactly the other children; if p was attached once, the count drops by one and uniqueness is kept; if it was detached, nothing changes |
| `Particles.RemoveCutsOut` | script.js:185-186 | removing a child that appears once cuts out exactly that child: the children before and after it keep their order |
| `Particles.RemainderIsValid` | script.js:185-186 | after a removal every child is still a created particle and appears once |
| `Particles.AfterExpiry` | script.js:184-189 | every child a timer expiry adds has an identity at or above the old `next`, so none is reused; for a detached particle it changes nothing; otherwise it keeps the count and the invariant and p is gone |
| `Particles.ExpiryKeepsCount` | script.js:184-189 | an attached particle's expiry keeps every other child and adds exactly one child besides them, the particle numbered `next`, which was not attached before |
| `Particles.Run` | script.js:184-189 | any series of expiries, in any order, keeps the count and the uniqueness of the children, and every child it adds has an identity at or above the old `next`, so none is reused (a removed particle stays gone: `DetachedStaysDetached`) |
| `Particles.StartThenRunHasCount` | script.js:160-189 | after start-up and any series of expiries, the container holds exactly 20 particles |
| `Particles.DetachedStaysDetached` | script.js:184-189 | a particle once removed never comes back, whatever expiries follow |
| `Particles.ParticleField.constructor` | script.js:146-163 | the in-place start-up leaves the state `Start(20)` describes: 20 particles |
| `Particles.ParticleField.CreateParticle` | script.js:165-181 | appends one fresh particle and returns its identity |
| `Particles.ParticleField.Expire` | script.js:184-189 | the in-place expiry leaves the state `AfterExpiry` describes: same count, p gone |
| `SalaryNumber.FirstDigit` | script.js:124 | the scan stops at the first digit at or after its start, or at the end of the text if there is none |
| `SalaryNumber.DigitsEnd` | script.js:124 | a greedy digit run: all digits up to its end, and no digit at its end |
| `SalaryNumber.NumberEnd` | script.js:124 | a match starting at a digit is non-empty and inside the text |
| `SalaryNumber.NumberEndIsLongestMatch` | script.js:124 | the greedy match is a numeral, and no longer stretch from the same start is one |
| `SalaryNumber.FindNumber` | script.js:124-125 | no match exactly when the text has no digit; otherwise the match is inside the text, has no digit before it, is a numeral and is maximal at its end |
| `SalaryNumber.SplitNumber` | script.js:122-128 | no split exactly when the text has no digit; otherwise prefix + number + suffix is the text, the prefix has no digit, the number is a numeral that cannot be extended into the suffix |
| `SalaryNumber.NoEarlierMatch` | script.js:124-127 | no numeral starts inside the prefix, so the match is the leftmost one |
| `SalaryObserver.Initial` | script.js:118-120 | before any entry, nothing has been started and exactly the amounts marked by the markup carry animated |
| `SalaryObserver.Step` | script.js:110-114 | one entry: an intersecting target ends up carrying animated; it is started exactly when it did not carry animated before; the invariant is kept |
| `SalaryObserver.Observe` | script.js:109-116 | a batch of entries: the animated set only grows, and earlier animateNumber calls stay as they were |
| `SalaryObserver.AnimatedAtMostOnce` | script.js:111-113 | no element is handed to animateNumber twice, and every started element carries animated |
| `SalaryObserver.NoRestart` | script.js:111-113 | an element that already carries animated, from an earlier callback or from the markup, is never started again |
| `SalaryObserver.StartedIffNewlyAnimated` | script.js:111-113 | the elements a batch starts are exactly those that carry animated after it and did not before |
| `SalaryObserver.AnimatedIffIntersected` | script.js:110-114 | an element is animated afterwards exactly when it was before or some entry for it was intersecting |
| `SalaryObserver.AmountObserver.constructor` | script.js:118-120 | when observation starts nothing has been started, and the amounts the markup marks carry animated |
| `SalaryObserver.AmountObserver.OnEntries` | script.js:109-116 | the in-place callback leaves the state `Observe` describes: the animated set only grows and no element is started twice |

## Left out

- AOS initialisation and `AOS.refresh` on resize (script.js:2-15): a third-party library whose behaviour is not visible here.
- Smooth scrolling, card hover styles, floating-icon animation restarts and the custom cursor (script.js:51-97, 193-221): each only sets a style on an event.
- Parallax (script.js:65-72): floating-point arithmetic on a browser value.
- The counter's tick loop (script.js:126, 130-139): `parseFloat`, float increments, `Math.floor(...).toLocaleString()` and `setInterval` timing. The model ends at the prefix, number and suffix the loop would use.
- Timer scheduling (`setTimeout`, `setInterval`): a particle's ten-second expiry is an explicit `Expire(p)` call, in any order the caller chooses.
- Particle position, animation delay and CSS text (script.js:148-157, 167-179): random or presentational, so a particle is only an identity.
- The DOM elements themselves: items, particles and amounts are identified by index or number. Element lookups (`querySelector`) are assumed to find the elements the page markup provides.
- `FindNumber`: match positions are counted in Unicode scalar values, while `match.index` and `match[0].length` count UTF-16 code units, so they differ for text with characters outside the Basic Multilingual Plane; text holding a lone surrogate cannot be represented. The prefix, number and suffix are the same either way.
- The accordion's `question` and answer content: the handler never reads them.
