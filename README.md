# LOL Coding Club site script, modelled in Dafny

This project models the interactive core of the club website's `script.js`:
the quotes carousel of the hero panel, the newsletter form's email check and
submit outcome, the single-instance toast, the active nav-link selection,
the one-shot scroll reveal, the hamburger/drawer toggle, and the footer
loader's success and failure paths. The document is reduced to flags: class
names and attributes become booleans in `seq`s, arrays or fields. Timers
become abstract handles and the callbacks they eventually run, which are
methods the environment may call.

Modules, one per component of the script:

- `Wrappers`: `Option`.
- `Email`: JavaScript white space, `trim`, the pattern
  `/^[^\s@]+@[^\s@]+\.[^\s@]+$/` as a decomposition
  (`MatchesPattern`), and a one-scan test (`IsValidEmail`) proved equal to it.
- `Toasts`: `ToastHost`, the body holding at most one `lol-toast` element.
- `Newsletter`: `SubmitFeedback`, the outcome of one submission, and the
  form class whose `Submit` performs it through a `ToastHost`.
- `Carousel`: `QuotesSlider`, with `goTo`, `next`, `startAuto`, `stopAuto`,
  the dot click listener, and the interval, resume and exit-mark timers.
- `NavLinks`: the section selected by `update` (`CurrentSection`, a loop
  proved against `LastReached`) and the link class update, which reads the
  sections' positions again on every scroll.
- `Reveal`: `ScrollReveal`, with the hidden state, the fallback and the observer callback.
- `Drawer`: `NavDrawer`, the hamburger toggle and the close-on-link listener.
- `Footer`: `Page.LoadFooter`, the footer loader, with the fetch result as an input; on success it runs the scroll-reveal binding again.

In these places the code behaves in ways a reader may not expect; the model follows the code:

- A dot click queues `setTimeout(startAuto, 8000)` and never cancels an
  earlier one, so a newer click does not supersede older resumes. An older
  resume can restart auto-advance before 8000 ms have passed since the last
  click. No duplicate interval can build up, because `startAuto` calls
  `stopAuto` first. `QuotesSlider` counts the queued resumes in `pendingResumes`.
- The pattern does not require a non-empty segment after the last dot.
  `a@b.c.` is accepted (`Email.AcceptsTrailingDot`).
- A revealed target is never re-hidden by the observer callback. A second
  `initScrollReveal`, as run after the footer loads, does set every target
  hidden again (`Reveal.ScrollReveal.Bind`).
- With a single slide, `next` keeps slide 0 active and also marks it
  `exit` until its 600 ms timer fires.

## Model

| member | source | states |
|---|---|---|
| `Email.IsSpace` | script.js:193-194 | the white-space set of JavaScript (WhiteSpace and LineTerminator), shared by `trim` and `\s` |
| `Email.LeadingSpaces` | script.js:193 | the characters counted from `lo` are white space, and the next one, if any, is not |
| `Email.TrailingSpaces` | script.js:193 | the characters counted back from `hi` are white space, and the one before them, if still at or after `lo`, is not |
| `Email.Trim` | script.js:193 | the result is an infix of the input between two all-space borders; it neither starts nor ends with white space; an all-space input trims to `''` |
| `Email.TrimKeeps` | script.js:193 | trimming a string with no white space at either end returns it unchanged |
| `Email.IndexOfAt` | script.js:194 | the index is the first `@`, or the length when there is none |
| `Email.IsValidEmail` | script.js:194 | `emailRegex.test`: split at the first `@`, a non-empty local part without white space, a rest without white space or `@` holding a `.` that is neither its first nor its last character |
| `Email.MatchesPattern` | script.js:194 | what `/^[^\s@]+@[^\s@]+\.[^\s@]+$/` means: the string is a word, `@`, a word, `.`, a word, each word a non-empty run without white space or `@` |
| `Email.ValidEmailExample` | script.js:194 | the one-scan test accepts `a@b.co` |
| `Email.ValidEmailMatches` | script.js:194-196 | a string the scan accepts is word `@` word `.` word, with words over `[^\s@]` |
| `Email.MatchesValidEmail` | script.js:194-196 | every string of that shape passes the scan |
| `Email.ValidEmailIffPattern` | script.js:194-196 | the scan accepts exactly the strings the pattern matches |
| `Email.Accepts` | script.js:193-196 | the handler's acceptance test, the negation of `!email \|\| !emailRegex.test(email)` on the trimmed input |
| `Email.AcceptsIffPattern` | script.js:193-196 | the handler accepts exactly when the trimmed input matches the pattern; the `!email` test adds nothing, since `''` never matches |
| `Email.AcceptsPlain` | script.js:193-196 | `a@b.co` is accepted |
| `Email.AcceptsPadded` | script.js:193-196 | ` a@b.co ` is accepted after trimming |
| `Email.AcceptsTrailingDot` | script.js:194 | `a@b.c.` is accepted: the dot need not be the last one |
| `Email.RejectsNoDot` | script.js:194-196 | `a@b` is rejected |
| `Email.RejectsSpaceInLocalPart` | script.js:194-196 | `a @b.co` is rejected |
| `Email.RejectsBlank` | script.js:196 | an empty or all-space input is rejected |
| `Newsletter.SubmitFeedback` | script.js:191-204 | info toast with the success message and a cleared input exactly when the trimmed input matches; otherwise error toast with the warning message, refocus, input unchanged |
| `Newsletter.SubmitExamples` | script.js:193-203 | the outcomes for `a@b.co`, ` a@b.co `, `a@b` and `a @b.co` |
| `Newsletter.NewsletterForm.Submit` | script.js:191-204 | the input value, focus and the one toast afterwards are those `SubmitFeedback` gives for the old value |
| `Toasts.ToastHost.Show` | script.js:247-279 | afterwards exactly one toast exists, holding the new message and kind, with a new identity; any previous toast is gone |
| `Toasts.ToastHost.Settle` | script.js:281-286 | the second animation frame makes its own toast visible and leaves any other toast unchanged |
| `Toasts.ToastHost.Dismiss` | script.js:288-290 | the dwell timer fades out its own toast only |
| `Toasts.ToastHost.Remove` | script.js:291 | the exit timer removes its toast only while that toast is still attached |
| `Toasts.ReplacedToastCannotInterfere` | script.js:247-293 | after the first toast is replaced, its frame, dwell and exit callbacks (run in that order) leave the body holding the second toast alone: it keeps its own identity, message and kind and is still entering |
| `Carousel.Wrap` | script.js:317 | the new index lies in `[0, total)` and is congruent to the requested index modulo `total` |
| `Carousel.WrapNext` | script.js:317-325 | `next` moves to `current + 1`, and from the last slide to slide 0 |
| `Carousel.WrapInRange` | script.js:317 | an index already in range is kept |
| `Carousel.SlidesAfterGoTo` | script.js:307-323 | the old slide loses `active` and gains `exit`; the new slide is active; no other slide changes; one active slide stays one active slide |
| `Carousel.DotsAfterGoTo` | script.js:307-323 | the old dot is inactive and unselected; the new dot is active and selected; no other dot changes; one active dot stays one; `aria-selected` keeps agreeing with `active` |
| `Carousel.QuotesSlider.constructor` | script.js:303-348 | starts at slide 0 with the markup's flags (lines 303-305) and the interval of the first `startAuto` live (line 348) |
| `Carousel.QuotesSlider.GoTo` | script.js:307-323 | `current` becomes the wrapped index; slides and dots as the two functions above say; one exit timer queued; timers untouched |
| `Carousel.QuotesSlider.Next` | script.js:325 | advances cyclically by one |
| `Carousel.QuotesSlider.StopAuto` | script.js:332-334 | no handle is held and no interval is live; nothing else changes |
| `Carousel.QuotesSlider.StartAuto` | script.js:327-330 | exactly the new interval is live; the previous one is cleared |
| `Carousel.QuotesSlider.DotClick` | script.js:336-346 | a click on the current index changes nothing at all; any other click leaves no interval live, jumps as `GoTo`, and adds one queued resume |
| `Carousel.QuotesSlider.Tick` | script.js:329 | a live interval firing runs `next` |
| `Carousel.QuotesSlider.Resume` | script.js:344 | a queued resume runs `startAuto`: one fewer pending, exactly one interval live |
| `Carousel.QuotesSlider.ClearExit` | script.js:314-315 | the oldest exit timer clears that slide's `exit` only |
| `Carousel.QuotesSlider.AtMostOneInterval` | script.js:327-334 | never more than one auto-advance interval is live |
| `Carousel.InitQuotesSlider` | script.js:298-348 | with no slides or no dots no carousel is created; otherwise a new one holds exactly the given slides and dots (`total` their count), starts at slide 0 with no exit timers and with the interval `h` as its only live interval |
| `NavLinks.Reached` | script.js:120-121 | a section is reached when `scrollY >= offsetTop - 80 - 40` |
| `NavLinks.LastReached` | script.js:118-124 | the index is the last section in document order with `scrollY >= offsetTop - 120`, or -1 when none is |
| `NavLinks.SelectedId` | script.js:118-124 | the id of the last reached section, or `''` when none is reached |
| `NavLinks.CurrentSection` | script.js:118-124 | the loop yields the id of that last reached section, or `''` |
| `NavLinks.LinkActive` | script.js:127-134 | a link is active when its href is `'#' + current`, or it is `index.html` or `./` and `current` is `home` or `''` |
| `NavLinks.NothingReachedHighlightsHome` | script.js:126-135 | before any section is reached, exactly the links `index.html`, `./` and `#` are active |
| `NavLinks.SectionLinkActive` | script.js:129-131 | a `#id` link is active exactly when `id` is the selected section |
| `NavLinks.LayoutOfSections` | script.js:108-121 | the sections are their fixed ids together with the `offsetTop` values of one layout, and nothing else |
| `NavLinks.LayoutChangeMovesSelection` | script.js:119-123 | at the same `scrollY`, moving a section's `offsetTop` changes the section selected |
| `NavLinks.NavHighlighter.Update` | script.js:117-136 | with the sections' `offsetTop` values read at this call, each link's `active` class is exactly the link rule applied to the section selected in that layout |
| `NavLinks.InitActiveNavLink` | script.js:107-140 | no sections: nothing is bound; otherwise a new highlighter over exactly the given sections' ids and links, with its own class array, has every link set as `Update` says for the current layout, and later scroll events can call `Update` on it with the layout of their time |
| `Reveal.ScrollReveal.constructor` | script.js:210-213 | before any binding the targets are all shown and none is observed |
| `Reveal.ScrollReveal.Bind` | script.js:210-241 | every target is hidden and observed, or, without an observer, every target is revealed and none observed |
| `Reveal.ScrollReveal.OnEntries` | script.js:231-239 | a target is revealed afterwards exactly when it was before or an entry reported it intersecting; those targets are unobserved; a target stays observed exactly while hidden |
| `Drawer.NavDrawer.Toggle` | script.js:53-59 | the open state flips; `aria-expanded` equals it, `aria-hidden` is its complement, the scroll lock follows it |
| `Drawer.NavDrawer.CloseFromLink` | script.js:72-78 | the drawer closes and the body scrolls; the hamburger closes too when it exists |
| `Footer.Succeeds` | script.js:360 | `res.ok`: a response arrived and its status is in 200-299 |
| `Footer.Page.LoadFooter` | script.js:354-369 | without a container, on a transport failure or on a status outside 200-299 nothing on the page changes; on success the body becomes the container's markup, the injected form is bound, and then the scroll reveal is bound again: every target hidden and observed anew, or all revealed without an observer |
| `Footer.LoadFooterExample` | script.js:354-369 | a 200 response with the body `<p>hi</p>` becomes the markup and both initialisers run; a 404 leaves the old markup and runs none |

## Left out

- Real timing: the 4000, 8000, 600, 3000 and 400 ms delays and the double `requestAnimationFrame`. Timer callbacks are methods the environment may call in any order, so the model allows orders that real delays rule out.
- Timer handles: `setInterval` handles are parameters of type `Handle` (positive integers, as browsers return them).
- Carousel.QuotesSlider.DotClick: takes the parsed `data-index` as an integer; a missing or non-numeric `data-index` (`NaN`) is not modelled.
- Carousel.QuotesSlider.constructor: requires at least as many dots as slides. With fewer dots, `dots[current]` is `undefined` once `current` passes the last dot and the handler throws; that failure is not modelled. Extra dots are modelled: they are bound and never become active.
- Carousel.QuotesSlider.constructor: requires the markup to mark exactly slide 0 and dot 0 active, with `aria-selected` agreeing with `active` on every dot. Other initial markup is not modelled.
- Reveal.ScrollReveal.Bind: a second binding creates a new observer and never disconnects the first, which goes on observing, and later revealing, the targets it had not yet revealed. The model keeps a single `observed` set. Which targets end up revealed is the same, but the model does not track the old observer.
- Carousel.QuotesSlider.GoTo: requires `index + total >= 0`. Below that, JavaScript's `%` can give a negative index, on which `slides[current]` is `undefined` and the handler throws; a negative multiple of `total` gives `-0`, which indexes slide 0. Neither case is modelled.
- `initHamburger`'s guard for a missing hamburger or drawer, and `initMobileDrawerClose`'s guard for a missing drawer: `NavDrawer` models a page whose drawer exists; only the hamburger may be missing.
- `initNewsletterForm`'s guard for a missing form or input: `NewsletterForm` models a form that is bound.
- The footer's fetch, promise chain, `innerHTML` parsing and console warnings: the fetch result is an input of `Footer.Page.LoadFooter`. Whether the injected markup holds the form is an input too. Re-binding the form is only recorded; the scroll reveal binding is run.
- Reveal targets added by the footer: `ScrollReveal` has a fixed set of targets.
- Observer options (threshold 0.12, bottom margin -30px): `isIntersecting` is an input.
- Styles: colours, transforms, the transition delay `i * 0.04` (floating point), and the toast's styling. Only the kind decides the styling.
- Fractional `scrollY`/`offsetTop`: positions are integers.
- The navbar scroll class, the scroll-top button, smooth scrolling, the explore-button messages, listener wiring, `DOMContentLoaded` bootstrapping and the console banner.
