# Portfolio page behaviour, modelled in Dafny

This project models the sequential logic of a one-page personal portfolio's
script (`app.js`). The model covers five pieces:

- **Typewriter** (`typing.dfy`, module `Typing`). The hero line cycles
  through a fixed list of phrases: it types one character per tick, holds the
  full phrase, deletes one character per tick, and moves on to the next
  phrase, wrapping round after the last. The page keeps four module-level
  variables (`currentTextIndex`, `currentCharIndex`, `isDeleting`,
  `typingSpeed`) plus the element's text. Here they are the fields of the
  class `Typewriter`, and each timer callback is one `Tick`. `Tick` is proved
  against the pure transition `Step`. The lemmas about `Step` and its
  iteration `Run` prove:
  - the tick invariant;
  - what each branch does;
  - a whole type/hold/delete/advance cycle.
- **Contact form** (`contact.dfy`, module `Contact`). Submitting first checks
  that no field is empty, then that the e-mail matches the pattern
  `^[^\s@]+@[^\s@]+\.[^\s@]+$`, and only then builds the body
  `Name: …\nEmail: …\n\nMessage:\n…` for a `mailto:` link. The pattern is
  the predicate `IsValidEmail`. It is proved equivalent to a plain description
  of the accepted addresses (`WellFormedAddress`). The body is proved to read
  back into its three fields (`ParseBody`) when the name has no line break (a
  valid e-mail never has one); without that condition two different sets of
  fields can give the same body.
- **Active navigation link** (`navigation.dfy`, module `Navigation`). On a
  throttled scroll event, every section whose span contains `scrollY + 100`
  clears all navigation links and activates its own, so the last such section
  wins. `UpdateActiveNavLink` keeps that loop over an array of link flags. It
  is proved against `LastCovering`.
- **Smooth scrolling and the navbar look** (same module). `SmoothScrollTo`
  finds the first element with the requested id and scrolls to its `offsetTop`
  minus 80; a missing target does nothing. `NavbarScroll` gives the bar the class
  `scrolled` exactly when the scroll offset exceeds 50, and leaves its other
  classes alone.
- **Throttle** (`throttle.dfy`, module `Throttling`). The `inThrottle` flag
  that a `throttle(func, limit)` closure captures is a class. A call applies the
  wrapped function only while the gate is open; a run that returns closes the
  gate and a timer expiry reopens it, while a run that throws leaves it open.
  Over any series of events, the function completes at most once more than
  the number of timer expiries.

`options.dfy` holds the `Option` datatype used for lookups.

The page's timers are not clocks here. A tick returns the delay its timer
would be scheduled with, and a throttle timer's expiry is an explicit event.
`encodeURIComponent` is a function parameter of `MailtoLink`.

## Model

| member | source | states |
|---|---|---|
| Typing.Initial | app.js:17-20 | The starting values meet the tick invariant for any non-empty phrase list, and are the start of a whole cycle: typing, nothing typed, speed 150. |
| Typing.Step | app.js:170-192 | A tick keeps the phrase index in range. It keeps `charIndex` at most the phrase's length, with the text shown equal to the phrase's first `charIndex` characters. Typing appends the phrase's next character and sets delay 150. Deleting drops the last character shown and sets delay 75. A full phrase turns to deleting with delay 2000 and nothing else changes. An empty text advances to phrase `(i + 1) % n`, with delay 500 and typing. |
| Typing.SomeBranchFires | app.js:173-192 | Under the tick invariant one of the four guarded branches always fires, and each fires exactly under its own guard. |
| Typing.Substring | app.js:175 | `substring(0, n)` gives a prefix of the text, of length `n` clamped to the text's length. |
| Typing.Run | app.js:194 | Rescheduling the tick any number of times keeps the phrase index in range and preserves the tick invariant. |
| Typing.TypesOut | app.js:173-177 | While typing, a partial phrase is completed in exactly as many ticks as characters are missing, showing the whole phrase with delay 150. |
| Typing.DeletesOut | app.js:178-182 | While deleting, the text is emptied in exactly as many ticks as characters are shown, with delay 75. |
| Typing.FullCycle | app.js:173-191 | Typing a phrase of length L from nothing shows the whole phrase after L ticks. The next tick holds it, with delay 2000. After 2L + 2 ticks the next phrase, `(i + 1) mod n`, starts from empty text with delay 500. |
| Typing.FirstCycle | app.js:170-195 | From the starting values, the first phrase is fully shown after as many ticks as it has characters, and the second phrase (wrapping round for a single phrase) starts from empty text after 2L + 2 ticks. |
| Typing.PortfolioFirstCycle | app.js:10-15 | The page's four phrases are a non-empty list, "Bioinformatics Researcher" is fully shown after 25 ticks, and the second phrase starts after 52. |
| Typing.TwoPhraseCycle | app.js:170-195 | With phrases "A" and "B": "A" appears after one tick, phrase 1 starts after four, "B" appears after five, and after eight ticks the cycle is back at phrase 0. |
| Typing.Typewriter.constructor | app.js:17-20 | Starts at the first phrase, with nothing typed, not deleting, and speed 150. |
| Typing.Typewriter.Tick | app.js:170-195 | Updates the four variables and the shown text in place exactly as `Step` does, keeps the invariant, and returns `typingSpeed` as the next delay. |
| Contact.IsValidEmail | app.js:251-254 | A string the pattern accepts is at least five characters long, and its first and last characters are neither whitespace nor '@'. |
| Contact.IsValidEmailIff | app.js:251-254 | The e-mail pattern accepts a string iff it has no whitespace and exactly one '@' with something before it. After the '@' there must be a '.' that is neither first nor last there. |
| Contact.Submit | app.js:203-232 | Any empty field gives the missing-fields rejection. Otherwise an e-mail that fails the pattern gives the malformed-email rejection. Otherwise the body is prepared, and it is exactly the template `Body` applied to the three fields, whatever they contain. The e-mail is then well formed. When the name has no line break, the body also reads back as name, e-mail and message in that order. |
| Contact.Body | app.js:232 | The body starts with `Name: ` and the name, and ends with the message label and the message. Its inverse is `ParseBody` (see the next two rows). |
| Contact.BodyRoundTrip | app.js:232 | A body built from a single-line name and e-mail parses back to the same three fields. |
| Contact.ParseBodyInverse | app.js:232 | Any string that parses into three fields is exactly the body template applied to them. |
| Contact.Notice | app.js:213-245 | A submit shows exactly one notification. It is an error exactly when the submit is rejected: "Please fill in all fields", "Please enter a valid email address", or the success message. |
| Contact.MailtoLink | app.js:231-233 | The link starts with `mailto:`, the recipient and `?subject=`, and ends with the encoded body. |
| Contact.MailtoDeterminesBody | app.js:231-233 | With an encoder that does not merge two bodies, equal `mailto:` links have equal bodies. |
| Navigation.QueryById | app.js:35 | The element found is the first one in document order with that id; none is found only if no element has it. |
| Navigation.SmoothScrollTo | app.js:34-45 | A scroll position is produced iff an element has the id. The position is the first such element's `offsetTop` minus 80. |
| Navigation.LastCovering | app.js:133-146 | The section returned contains `pos` and no later section does. None is returned only when no section contains `pos`. |
| Navigation.UpdateActiveNavLink | app.js:131-148 | If no section contains `scrollY + 100`, no link changes. Otherwise only the last containing section's link is active, and every other link is inactive. |
| Navigation.DisjointSectionsOneMatch | app.js:141-146 | When sections do not overlap, the section chosen is the one that contains the position. |
| Navigation.ScrollTop | app.js:155 | The offset is one of the two readings: the page offset when it is non-zero, the document's scroll top when the page offset is 0. |
| Navigation.NoHysteresis | app.js:154-162 | After any non-empty series of scroll events, the bar has the class "scrolled" iff the last offset exceeds 50, and its other classes are exactly those it had before the series. |
| Navigation.NavbarScroll.constructor | app.js:151-153 | The listener starts with last offset 0 and the bar's classes as given. |
| Navigation.NavbarScroll.OnScroll | app.js:154-165 | The bar has the class "scrolled" iff the offset exceeds 50, and no other class changes. The offset is `pageYOffset`, or the document's scroll top when that is 0. Records the offset as the last one seen. |
| Throttling.Throttle.constructor | app.js:472-473 | A new throttle's gate is open. |
| Throttling.Throttle.Invoke | app.js:474-482 | The wrapped function is applied iff the gate was open. A run that returns closes the gate and starts a timer of `limit` (`Some(limit)`). A run that throws leaves the gate open and starts no timer (`None`). A dropped call starts no timer and changes nothing. |
| Throttling.Throttle.Expire | app.js:480 | The timer's expiry reopens the gate. |
| Throttling.RunsBound | app.js:472-483 | Over any series of calls and expiries, the wrapped function completes at most (1 if the gate starts open) plus the number of expiries times. |
| Throttling.CallRunsIffOpen | app.js:477-480 | A call appended to any history completes a run exactly when the gate is open after that history and the function returns. The gate is closed afterwards unless it was open and the function threw. |

## Left out

- DOM access is left out: element lookups, class-list toggles beyond their boolean effect, and inline styles. IntersectionObserver reveals, staggered skill and timeline animations, and counters (app.js:48-79, 377-404, 502-539) are browser APIs and presentation.
- The click handlers (app.js:84-124) are left out. The hamburger toggle (app.js:84-87) and the menu closing in the nav-link handlers (app.js:95-96) only flip the `active` class. Otherwise the nav-link handlers and the document-wide anchor delegation route clicks to `smoothScrollTo`, which is modelled. A click on a nav link reaches it twice, once from its own handler (app.js:100) and once from the delegation (app.js:110). An anchor nested in another anchor can reach it through both the target check and the parent walk.
- Real timer scheduling is left out, as are the one-second delay before the first tick (app.js:198) and the hero entrance stagger (app.js:486-499). A delay is a returned value and a timer expiry is an event.
- The notification presenter's HTML, CSS and style injection (app.js:257-356) are left out; only which notice a submit shows is modelled.
- Parallax, ripple geometry and counter stepping (app.js:359-374, 420-469, 516-528) are left out because they use floating-point arithmetic.
- The timeline hover handlers (app.js:407-417) are pure styling and are left out.
- The submit handler's side effects are left out: disabling and relabelling the button, the simulated one-second wait, `window.location.href` navigation and `contactForm.reset()` (app.js:224-246).
- `encodeURIComponent` is a parameter, so percent-encoding itself is not modelled.
- Scroll offsets, section tops and heights are integers. The browser may report fractional values. Clamping of `window.scrollTo` to the page is not modelled.
- Navigation.SmoothScrollTo: only selectors of the form `#id` are compared, by string equality. A malformed selector (`#` alone) makes `querySelector` throw, and other CSS selector syntax is not modelled.
- Navigation.UpdateActiveNavLink: a section's link is an index into the navigation links, or none. An anchor that matches `a[href="#id"]` but is not a navigation link would also get the "active" class in the page; the model omits that. A section id containing `"` makes that selector invalid, so `querySelector` throws and the update stops at that section; the model does not build the selector and so does not capture this.
- Typing.Typewriter.constructor: the target element is taken to start empty; the page's HTML is not part of this model.
- Contact.Submit: `FormData.get` returning `null` for an absent field is treated like an empty string, which the page's `!name` check treats the same way.
- Contact.IsValidEmail works on Unicode scalar values, while JavaScript strings are UTF-16 code units. The pattern's outcome is the same, because neither surrogate half is whitespace, '@' or '.'.
- Typing.Step: phrase lengths and `substring` count Unicode scalar values, while the page counts UTF-16 code units. For a phrase with a character outside the Basic Multilingual Plane, the page takes one more tick per such character and shows a lone surrogate in between, so `TypesOut`, `DeletesOut` and `FullCycle` give the tick counts of the scalar-value reading. The page's four phrases are ASCII, where the two readings agree.
- Throttling.Throttle.Invoke: an exception from the wrapped function propagates to the event dispatcher in the page. The model returns normally and reports only its effect on the gate and the timer.
- Throttling.Throttle.Invoke: the forwarding of `this` and the call's arguments to the wrapped function is not modelled.
