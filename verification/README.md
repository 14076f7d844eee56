# Portfolio page logic, modelled in Dafny

The repository is a single-page React portfolio (`src/App.jsx`). Nearly all
of it is markup and styling. Four small pieces of sequential logic sit inside
it, and this project models them and proves what they do:

- **Contact-form validator** (`validateForm`). Name and message are required
  after `trim()`. The email is required after `trim()`. Otherwise the
  *untrimmed* email is tested against `/\S+@\S+\.\S+/` with `.test`, and
  that test passes when *some substring* matches (module `EmailPattern`).
  `trim()` and `\S` share the ECMAScript white-space set (module `Text`).
- **Contact-form state** (`handleChange`, `handleSubmit` and the timeout it
  schedules): the values, the stored messages, the success flag and the
  number of pending reset timeouts (module `ContactForm`).
- **Active-section tracking** (`handleScroll`): a first-match scan over
  `home, about, projects, resume, contact` at `scrollY + 100`. It keeps the
  previous section when nothing matches (module `ScrollTracker`). The navbar
  highlight rule is in module `Navbar`.
- **Typing effect**: one interval callback per tick reveals a growing prefix
  of the hero text, then clears the interval (module `Typing`).

What the model makes explicit about the code as written:

- The error object's keys are always among name, email and message. This
  holds by construction: a key is a value of the three-constructor type
  `ContactForm.Field`.
- Editing a field overwrites its message with `""` instead of deleting the key.
- A successful submit does not clear the values. Only the reset timeout
  does that, 3000 ms later. It leaves the stored messages alone.
- Each successful submit schedules its own reset, and none is ever cancelled.
  After two quick submits, the first reset hides the success notice while the
  second reset is still pending.
- The invariant `ContactForm.Consistent` holds in every reachable state. It
  says that a stored message that is not `""` belongs to a field that fails
  validation now. So at the moment a submit succeeds, no error text shows
  beside the success notice. The two can still show together later: after a
  successful submit, blanking the name and submitting again before the reset
  fires keeps the notice up and stores "Name is required".
- The Home `<section>` (src/App.jsx:239) has no `id`, so `'home'` is never
  found in the document. Once another section has become active, `'home'`
  can never become active again.
- While `scrollY + 100` is above the top of every element with an id, no
  section matches and the previous active section stays. The Home section
  fills the top of the page, so scrolling back to the top leaves the last
  matched section highlighted.

Other behaviour of the code worth noting:

- With no matching section, the previous active section stays
  (src/App.jsx:32-41).
- The scroll handler is registered as a listener and runs only on scroll
  events (src/App.jsx:44); the active section starts as `'home'`
  (src/App.jsx:10).
- The first typing tick shows `""`, because `currentIndex` starts at 0
  (src/App.jsx:218-222). The whole text appears at tick `|text| + 1`, and
  the interval is cleared at tick `|text| + 2`.

## Model

| member | source | states |
|---|---|---|
| Text.TrimStart | src/App.jsx:611 | the result is a suffix of the input; everything dropped is white space; a non-empty result starts with a non-white-space character |
| Text.TrimEnd | src/App.jsx:611 | the result is a prefix of the input; everything dropped is white space; a non-empty result ends with a non-white-space character |
| Text.Blank | src/App.jsx:611-617 | `!s.trim()` holds exactly when every character of the value is white space |
| Text.Trim | src/App.jsx:611-617 | `trim()` yields a contiguous window of the input with only white space outside it; it is empty exactly when the input is all white space |
| EmailPattern.LooksLikeEmail | src/App.jsx:614 | the executable `.test`: some '@' has a non-white-space character before it and is followed by one or more non-white-space characters, a '.', and a non-white-space character; its meaning is stated by LooksLikeEmailIffFound, FoundInContext and NoAtNoMatch |
| EmailPattern.LooksLikeEmailIffFound | src/App.jsx:614 | the executable '@'/'.' anchor search succeeds exactly when some substring matches `\S+@\S+\.\S+` |
| EmailPattern.FoundInContext | src/App.jsx:614 | the test is unanchored: a matching value still matches with any text before and after it |
| EmailPattern.NoAtNoMatch | src/App.jsx:614 | a value with no '@' never matches |
| ContactForm.WithField | src/App.jsx:603 | the spread update sets the named field to the new value and leaves the other two unchanged |
| ContactForm.RequiredError | src/App.jsx:611 | a required field gets its message exactly when its value is all white space |
| ContactForm.EmailError | src/App.jsx:612-616 | "Email is required" when the email is all white space; otherwise "Email is invalid" exactly when no substring of the untrimmed email matches |
| ContactForm.Collect | src/App.jsx:610-618 | the error object has a key for exactly the fields with a message; it is empty exactly when no field has one |
| ContactForm.Validate | src/App.jsx:609-619 | a key per failing field with the source's message and no key for a passing field: name and message fail exactly when all white space; the email fails as required when all white space, otherwise as invalid exactly when no substring matches |
| ContactForm.ValidateEmptyIffAcceptable | src/App.jsx:609-624 | the validator returns the empty map, so that submission proceeds, exactly when name and message are non-blank and the email is non-blank and matches |
| ContactForm.ValidateMessagesNonEmpty | src/App.jsx:609-619 | every message the validator stores is a non-empty string |
| ContactForm.SampleAddressMatches | src/App.jsx:614 | "a@b.com" matches the pattern |
| ContactForm.EmbeddedAddressMatches | src/App.jsx:614 | "mail me: a@b.c!" matches the pattern, which occurs inside it |
| ContactForm.ExampleMissingName | src/App.jsx:609-619 | a blank name with a valid email and message yields only "Name is required" |
| ContactForm.ExampleInvalidEmail | src/App.jsx:612-616 | "not-an-email" yields only "Email is invalid" |
| ContactForm.ExampleValid | src/App.jsx:609-619 | a complete form yields the empty map |
| ContactForm.ExampleEmbeddedEmail | src/App.jsx:614 | an address inside other text passes the email test |
| ContactForm.HandleChange | src/App.jsx:601-607 | only the edited field takes the new value; its stored message, if any, becomes "" with the key kept; the other messages, the flag and the pending resets are unchanged |
| ContactForm.HandleSubmit | src/App.jsx:621-633 | values never change; an acceptable form sets the notice and schedules one more reset with messages untouched; otherwise the messages become exactly the validator's non-empty result |
| ContactForm.FireReset | src/App.jsx:626-629 | a pending reset empties all three values and hides the notice, leaving the messages as they are |
| ContactForm.FirstResetHidesLaterNotice | src/App.jsx:621-633 | after two successful submits, the first reset hides the notice while one reset is still pending |
| ContactForm.NoticeWithErrors | src/App.jsx:601-633 | after a successful submit, blanking the name and submitting again before the reset keeps the notice shown while "Name is required" is stored |
| ContactForm.InitialConsistent | src/App.jsx:593-599 | the mounted state (empty values, no messages, no notice) satisfies the invariant |
| ContactForm.StepConsistent | src/App.jsx:601-633 | editing, submitting and the reset timeout each preserve the invariant: a non-empty message means its field fails validation now, and the notice shows only while a reset is pending |
| ContactForm.ChangeConsistent | src/App.jsx:601-607 | an edit preserves the invariant: the edited field's message becomes "" and the other fields keep their values and messages |
| ContactForm.ResetConsistent | src/App.jsx:626-629 | the reset timeout preserves the invariant |
| ContactForm.EmptyFormFailsEverywhere | src/App.jsx:627 | every field of the form the reset writes fails validation |
| ContactForm.FieldVerdictLocal | src/App.jsx:611-617 | whether a field fails validation depends on that field's value alone |
| ContactForm.RunConsistent | src/App.jsx:593-633 | every state reached by any sequence of events from a consistent state is consistent |
| ContactForm.AcceptedSubmitShowsNoErrors | src/App.jsx:621-633 | in every reachable state, a successful submit shows the notice with every stored message equal to "" |
| ScrollTracker.Hit | src/App.jsx:33-36 | `getElementById` finds the element and the position lies in `[offsetTop, offsetTop + offsetHeight)`; FirstHit and SelectActive state the scan built on it |
| ScrollTracker.FirstHit | src/App.jsx:32-41 | the loop stops at the first section whose element exists and spans the position; there is no result exactly when none does |
| ScrollTracker.SelectActive | src/App.jsx:28-41 | the new active section is the first listed section that exists and satisfies `top <= scrollY + 100 < top + height`; with none, the previous one is kept |
| ScrollTracker.SelectActiveInSections | src/App.jsx:29-41 | the result is the previous value or one of the five listed ids |
| ScrollTracker.ActiveAlwaysListed | src/App.jsx:10-41 | starting from a listed id such as the initial "home", the active section stays one of the five ids over any scroll events |
| ScrollTracker.PicksTheContainingSection | src/App.jsx:32-41 | when exactly one section spans the position, it becomes active |
| ScrollTracker.HomeNeverReselected | src/App.jsx:29-41 | without an element with id "home", a scroll never makes "home" active unless it already was |
| ScrollTracker.HomeNeverReturns | src/App.jsx:28-41 | the same over any run of scroll events without a "home" element |
| ScrollTracker.AboveEverySectionKeepsPrevious | src/App.jsx:28-41 | when `scrollY + 100` lies above the top of every element with an id, the previous active section is kept |
| Navbar.LowerChar | src/App.jsx:130 | ASCII upper-case letters map to the letter 32 code points higher; other characters are unchanged |
| Navbar.Lower | src/App.jsx:130 | lower-casing keeps the length and lower-cases each character |
| Navbar.Highlighted | src/App.jsx:130-196 | the highlight condition shared by the desktop navbar (130, 140) and the mobile menu (193, 196); HighlightedIffLowerLabel, HighlightedIffSection and ExactlyOneHighlighted state its meaning |
| Navbar.HighlightedIffLowerLabel | src/App.jsx:130 | the highlight condition is just "active equals the lower-cased label"; the extra "Home" case adds nothing |
| Navbar.LabelsAreSectionIds | src/App.jsx:95 | the lower-cased labels are the section ids, position by position |
| Navbar.HighlightedIffSection | src/App.jsx:130-196 | item k is highlighted exactly when section k is active |
| Navbar.SectionsDistinct | src/App.jsx:29 | the five section ids are pairwise different |
| Navbar.ExactlyOneHighlighted | src/App.jsx:130-196 | exactly one item is highlighted when the active section is a listed id, and none otherwise |
| Navbar.OneItemAfterScrolling | src/App.jsx:10-140 | from the initial "home", after any scroll events exactly one item is highlighted |
| Typing.Tick | src/App.jsx:219-226 | the interval callback; TickKeepsPrefix, RevealAfter and StopsAfterFullText state what it does |
| Typing.TickKeepsPrefix | src/App.jsx:219-226 | a tick keeps the state reachable and extends the shown text by at most one character, never shortening it |
| Typing.RevealAfter | src/App.jsx:218-226 | after tick n, for 1 <= n <= length + 1, the shown text is the first n - 1 characters and the interval runs |
| Typing.StopsAfterFullText | src/App.jsx:219-226 | from tick length + 2 on, the interval is cleared and the whole text stays shown |
| Typing.RunReachable | src/App.jsx:218-226 | at every tick the shown text is a prefix of the target |
| Typing.TextGrows | src/App.jsx:218-226 | the text shown at an earlier tick is a prefix of the text shown at any later tick |
| Typing.FullTextTiming | src/App.jsx:218-226 | the whole text is first shown at tick length + 1, it is still incomplete at tick length, and the interval is cleared at tick length + 2 |
| Typing.PageTextLength | src/App.jsx:215-226 | the page's text has 31 characters; it is complete and the interval still runs at tick 32, and the interval is cleared at tick 33 |

## Left out

- Dark-mode class changes on the root element (src/App.jsx:16-25), smooth
  scrolling (`scrollIntoView`, `scrollTo`), the mobile menu toggle, the
  navbar's "scrolled" shadow and the hover state: these are side effects on
  the host page with no logic worth stating.
- The fade-in wrapper `ScrollAnimation` (src/App.jsx:791-818): it depends on
  browser intersection callbacks and real-time delays. Its pending reveal is
  not cancelled when the element leaves the viewport.
- The browser's own handling of the email input: the form has no
  `noValidate` (src/App.jsx:690) and the email field is
  `type="email"` (src/App.jsx:722-723). So the browser does not send
  `submit` while the email is non-empty but not a valid address, and it
  removes line breaks from the value and strips leading and trailing ASCII
  white space (tab, LF, FF, CR, space). So "a@b\n.c" is sent as "a@b.c",
  which passes, where the model reports "Email is invalid". The model lets
  `ContactForm.HandleSubmit` run in every state, which is more states
  than the page allows, and it keeps the value as typed.
- The cursor-blink interval and every real duration (100 ms, 500 ms,
  3000 ms): time is modelled as discrete ticks and events only.
- Removing listeners and intervals at unmount: the model has no unmount.
- Fractional scroll offsets: `scrollY`, `offsetTop` and `offsetHeight` are integers.
- Where the layout comes from: the document's boxes are an input to each scroll event.
- All JSX rendering, styling, the static project, skill and contact data,
  the placeholder links and the footer.
- Navbar.LowerChar, Navbar.Lower: lower-case only the ASCII letters A-Z, not all of Unicode.
  The labels it is applied to are ASCII.
- Characters are Unicode scalar values, not UTF-16 code units.
  Every white-space character lies in the Basic Multilingual Plane, so the
  two views agree on the white-space set.
