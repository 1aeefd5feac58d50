# GTCC site scripts — verified model of the interactive core

This project models the page behaviour in `assets/js/main.js` of the college website, in Dafny. It covers three parts.

- **Slide carousels.** The hero banner, the "about" gallery and the video slider share one controller design. Each wraps a requested index with `(index + n) % n` and marks the chosen slide and dot with classes and ARIA attributes. Each runs an autoplay interval timer and pauses it on hover or focus. The hero carousel sizes its track to the tallest slide; the video carousel sizes it to the active slide. `Carousels.Carousel` is a single class over arrays of slide and dot records. A `Variant` (`Hero`, `About`, `Video`) selects the places where the three copies differ:
  - the default interval;
  - the dot attributes written;
  - how autoplay starts and restarts;
  - the button and key handlers;
  - the height synchronisation.
- **Department tabs.** `DepartmentTabs.TabGroup` selects one tab and shows the panel it controls (`aria-controls`). Tabs follow the arrow, Home and End keys. The selection is written into the URL fragment and read back from it on load and on `hashchange`.
- **Consultation booking.** `Consultation` turns the trimmed name, phone and date fields into a `mailto:` address with a subject and a body, both passed through `encodeURIComponent`.

The module `JsRuntime` models the JavaScript semantics these controllers rely on:
- Numbers, with `NaN` and the infinities, `+`, and the truncating `%`;
- truthiness;
- `Array.prototype.find`/`findIndex`;
- `String.prototype.trim`.

A carousel index is a JavaScript Number, not an integer. A dot attribute such as `"1.5"` therefore reaches `setActive` unchanged and leaves no slide active. The same happens with `"-5"` on three slides, whose truncating `%` gives `-2`. The model reproduces both.

Browser inputs and effects are explicit:
- `offsetHeight` and the narrow-viewport media query are a `Viewport` parameter;
- the interval timers the browser holds are the `timers` field, whose handles come from `nextHandle`;
- the location's fragment is the `hash` field and the focused tab is the `focused` field;
- the consultation form's navigation target is the returned address.

The booking recipient is kept exactly as `assets/js/main.js:966` spells it.

## Model

| member | source | states |
|---|---|---|
| JsRuntime.Add | assets/js/main.js:450-456 | `currentIndex ± 1` on Numbers: finite operands add exactly; the result is `NaN` exactly when an operand is `NaN` or the operands are opposite infinities. |
| JsRuntime.TruncRem | assets/js/main.js:856-864 | The integer `%` of `focusTabByIndex` takes the dividend's sign. It agrees with the Euclidean remainder on non-negative dividends and lies in `(-n, 0]` on negative ones. |
| JsRuntime.RemBy | assets/js/main.js:422 | `x % n` is finite exactly when `x` is; `NaN` and the infinities give `NaN`. On integers it is `TruncRem` (`RemOfInt`). |
| JsRuntime.RemOfInt | assets/js/main.js:421-422 | On an integral Number the Number `%` is the integer truncating remainder. |
| JsRuntime.WrapOfInt | assets/js/main.js:421-422 | For an integer request `k >= -n` the wrapped index is `(k + n) mod n`, a valid slide index. |
| JsRuntime.Wrap | assets/js/main.js:422 | `(index + n) % n` is finite exactly when the request is; a `NaN` or infinite request gives `NaN`. Its values are characterised by `WrapOfInt`, `WrapMatch` and `WrapSelectsNothing`. |
| JsRuntime.WrapOfIndex | assets/js/main.js:304-307 | An in-range index (the initial `currentIndex`) wraps to itself. |
| JsRuntime.WrapPeriodic | assets/js/main.js:421-422 | Requests that differ by a multiple of `n` select the same slot while both stay at or above `-n`. |
| JsRuntime.WrapNextFromLast | assets/js/main.js:450-452 | `goToNext` from the last slide wraps to slide 0. |
| JsRuntime.WrapPrevFromFirst | assets/js/main.js:454-456 | `goToPrev` from slide 0 wraps to slide `n - 1`. |
| JsRuntime.StepForwardFromLast | assets/js/main.js:450-452 | With the position held as a Number equal to `n - 1`, `(current + 1 + n) % n` is 0. |
| JsRuntime.StepBackFromFirst | assets/js/main.js:454-456 | With the position held as a Number equal to 0, `(current - 1 + n) % n` is `n - 1`. |
| JsRuntime.WrapMatch | assets/js/main.js:424-427 | A wrapped value can equal (`===`) an index only if the request was integral, and only for an index in `(-n, n)`. |
| JsRuntime.WrapSelectsNothing | assets/js/main.js:486-494 | A fractional, infinite or `NaN` request equals no index. |
| JsRuntime.WrapExamples | assets/js/main.js:421-422 | `-5` on three slides wraps to `-2`, `-6` wraps to `0`, and `1.5` stays `1.5`. |
| JsRuntime.First | assets/js/main.js:304 | `findIndex`/`find`: the first position satisfying the predicate, or none if no position does. |
| JsRuntime.Trim | assets/js/main.js:947-949 | `trim()` returns the contiguous part of the input after its leading white space, and only white space follows it. The result neither starts nor ends with white space. |
| JsRuntime.TrimIdempotent | assets/js/main.js:947-949 | Trimming twice is trimming once. |
| Carousels.IntervalOr | assets/js/main.js:301 | `Number(attr) \|\| default` is always truthy: the parsed value if truthy, else the default. |
| Carousels.IntervalFallbacks | assets/js/main.js:557 | `0` and `NaN` fall back to the variant's default. Every negative interval, finite or `-Infinity`, is kept and is not positive, so the about carousel then never schedules a timer (`NoTimerWithoutAutoplay`). |
| Carousels.IntegerRequestMarksOneSlide | assets/js/main.js:421-428 | For an integer request `k >= -n`, exactly the slide at `(k + n) mod n` gets `is-active` and `aria-hidden="false"`; every other slide gets `aria-hidden="true"`. |
| Carousels.MarkedSlides | assets/js/main.js:423-427 | After marking, a slide is active exactly when its position equals (`===`) the target, `aria-hidden` is the negation of that, and its inline style is kept. |
| Carousels.MarkedDots | assets/js/main.js:430-439 | After marking, a dot is active exactly when its position equals the target; `aria-selected` mirrors that and `aria-current` is present exactly on the active dot. |
| Carousels.OnlyTargetActive | assets/js/main.js:423-427 | Marking for an in-range integer target leaves that slide active and no other. |
| Carousels.NextFromLastActivatesFirst | assets/js/main.js:450-452 | From the last slide, `currentIndex + 1` wraps to 0, and marking for 0 leaves exactly slide 0 active. |
| Carousels.PrevFromFirstActivatesLast | assets/js/main.js:454-456 | From slide 0, `currentIndex - 1` is `-1`, and marking for its wrap leaves exactly the last slide active. |
| Carousels.DotsMirrorTarget | assets/js/main.js:430-439 | A dot is active iff its position equals the wrapped target. Its `aria-selected` equals that flag and `aria-current` is present iff it is active. No dot at a position `>= n` is ever active. |
| Carousels.AboutDotsRovingTabindex | assets/js/main.js:579-588 | In the about carousel exactly the active dot has `tabindex="0"`. |
| Carousels.NonIntegralRequestMarksNothing | assets/js/main.js:486-494 | A non-integral dot target leaves every slide inactive and hidden, and every dot inactive. |
| Carousels.NegativeDotAttributeMarksNothing | assets/js/main.js:742-749 | A dot attribute of `-5` on three slides activates no slide. |
| Carousels.MaxOf | assets/js/main.js:407-408 | `Math.max(...heights)` of a non-empty list is an element of it and bounds every element. |
| Carousels.HeroTrackHeight | assets/js/main.js:401-415 | A narrow viewport clears the height. Otherwise the result is the previous height or a positive pixel value that is one of the measured slide heights. |
| Carousels.HeroTrackFitsTallestSlide | assets/js/main.js:401-415 | On a wide viewport, when some slide measures above 0 the track height is a pixel value that is positive, bounds every measured height and equals one of them (the tallest). When none does, the height is left as it was. |
| Carousels.SlotOf | assets/js/main.js:668-672 | `slides[currentIndex]` exists exactly when the index is an integral Number within bounds. |
| Carousels.VideoTrackHeight | assets/js/main.js:668-675 | When the position is some slide's index the height is that slide's `offsetHeight`; when it is no index the height is left as it was. |
| Carousels.InitialSlide | assets/js/main.js:304-307 | The start index is the first slide carrying `is-active`, or 0 when none does. |
| Carousels.Carousel.constructor | assets/js/main.js:519-523 | Initialisation activates the initial slide and marks slides and dots for it. It holds a timer (handle 1) exactly when the variant may autoplay. The track height becomes `SyncedHeight` of the initial one: the hero's tallest slide (`HeroTrackHeight`), the video's active slide (`VideoTrackHeight`), the about carousel's unchanged. |
| Carousels.Carousel.Initialise | assets/js/main.js:774-776 | `setActive(currentIndex)`, `startAutoplay()`, then a height update for hero and video: the start slide is active alone, a timer (handle 1) is held exactly when the variant may autoplay, and the track height is `SyncedHeight` of the old one (the second update changes nothing, `SyncIdempotent`). |
| Carousels.Carousel.StartAndSync | assets/js/main.js:522-523 | From a fresh state, autoplay starts exactly when the variant may autoplay (handle 1). The track height becomes `SyncedHeight` of the old one; slides and marks are unchanged. |
| Carousels.Carousel.SyncIdempotent | assets/js/main.js:401-415 | Synchronising the track height twice on the same slides gives the same height as once. |
| Carousels.Carousel.NoTimerWithoutAutoplay | assets/js/main.js:465-474 | A carousel that may not autoplay (`CanAutoplay`: about with a non-positive interval, hero or video with one slide) holds no handle and no live timer. |
| Carousels.Carousel.SetActive | assets/js/main.js:421-444 | The new index is the wrapped request. Slides and dots are re-marked as `MarkedSlides`/`MarkedDots` of their previous state. The hero re-measures its track height and the video takes the active slide's height. Timers are untouched. |
| Carousels.Carousel.MarkSlides | assets/js/main.js:423-427 | Every slide becomes `MarkSlide` of its previous state for the target: `is-active` and `aria-hidden` set, all other properties kept. |
| Carousels.Carousel.MarkDots | assets/js/main.js:430-439 | Every dot becomes `MarkDot` of its previous state for the variant and target. |
| Carousels.Carousel.GetSlideHeight | assets/js/main.js:364-397 | Returns the slide's measured height: as-is if active, else with the measuring style. All five saved inline style properties are restored, so no slide changes. |
| Carousels.Carousel.MeasureTrackHeight | assets/js/main.js:401-415 | A narrow viewport clears the height. Otherwise the height becomes the maximum measured height when that is positive, and is left unchanged when it is not. Slides are unchanged. |
| Carousels.Carousel.UpdateHeight | assets/js/main.js:668-675 | The variant's height synchronisation (video: the active slide's `offsetHeight`, or nothing when there is no such slide). Slides and marks are preserved. |
| Carousels.Carousel.StopAutoplay | assets/js/main.js:458-463 | Afterwards no handle is held and no timer is live, whatever the state before. Calling it twice is therefore the same as once. |
| Carousels.Carousel.Schedule | assets/js/main.js:471-473 | `setInterval` returns a fresh, truthy handle, which becomes the only live timer. |
| Carousels.Carousel.StartAutoplay | assets/js/main.js:465-474 | Hero and video: nothing with fewer than two slides; otherwise the old handle's timer is cleared and a fresh one is held. About: a timer is created only for a positive interval and when none is held, so a second call is a no-op. At most one timer is live. |
| Carousels.Carousel.GoTo | assets/js/main.js:593-597 | Activates the wrapped request. The about carousel then holds a fresh handle (positive interval) or none, restarting its countdown; hero and video keep their handle. The track height becomes `SyncedHeight` of the old one: the hero's tallest slide (`HeroTrackHeight`), the video's active slide (`VideoTrackHeight`), the about carousel's unchanged. |
| Carousels.Carousel.GoToNext | assets/js/main.js:450-452 | Activates `wrap(current + 1)` and re-marks slides and dots for it; the timer handling is `GoTo`'s. The track height becomes `SyncedHeight` of the old one: the hero's tallest slide (`HeroTrackHeight`), the video's active slide (`VideoTrackHeight`), the about carousel's unchanged. |
| Carousels.Carousel.GoToPrev | assets/js/main.js:454-456 | Activates `wrap(current - 1)` and re-marks slides and dots for it; the timer handling is `GoTo`'s. The track height becomes `SyncedHeight` of the old one: the hero's tallest slide (`HeroTrackHeight`), the video's active slide (`VideoTrackHeight`), the about carousel's unchanged. |
| Carousels.Carousel.Tick | assets/js/main.js:599-601 | A timer firing advances to `wrap(current + 1)` and leaves the timer alone. The track height becomes `SyncedHeight` of the old one: the hero's tallest slide (`HeroTrackHeight`), the video's active slide (`VideoTrackHeight`), the about carousel's unchanged. |
| Carousels.Carousel.ClickNext | assets/js/main.js:481-484 | Advances by one and re-marks slides and dots; whenever the carousel may autoplay it afterwards holds a freshly started timer. The track height becomes `SyncedHeight` of the old one: the hero's tallest slide (`HeroTrackHeight`), the video's active slide (`VideoTrackHeight`), the about carousel's unchanged. |
| Carousels.Carousel.ClickPrev | assets/js/main.js:476-479 | Steps back by one and re-marks slides and dots; whenever the carousel may autoplay it afterwards holds a freshly started timer. The track height becomes `SyncedHeight` of the old one: the hero's tallest slide (`HeroTrackHeight`), the video's active slide (`VideoTrackHeight`), the about carousel's unchanged. |
| Carousels.Carousel.ClickDot | assets/js/main.js:486-495 | Hero and video ignore a `NaN` target: position, marks, timer, next handle and height all stay. Otherwise they go to the wrapped target and restart autoplay. The about carousel goes to the dot's own position (lines 625-629) and then holds a fresh handle exactly when its interval is positive, else none. Whenever it moves, the track height becomes `SyncedHeight` of the old one. |
| Carousels.Carousel.KeyDown | assets/js/main.js:507-517 | ArrowRight/ArrowLeft step forward/back, re-mark slides and dots, restart autoplay and set the track height to `SyncedHeight` of the old one. Other keys, and every key in the about carousel, leave position, timer, next handle, marks and height unchanged. |
| Carousels.Carousel.Pause | assets/js/main.js:498-500 | `pointerenter`/`mouseenter`/`focusin` leave no timer live. |
| Carousels.Carousel.PointerLeave | assets/js/main.js:499 | `pointerleave`/`mouseleave` is `startAutoplay`: hero and video with two or more slides hold a fresh handle, with fewer nothing changes; the about carousel takes a fresh handle only for a positive interval when none is held. At most one timer is live. |
| Carousels.Carousel.FocusOut | assets/js/main.js:501-505 | Hero and video resume only when focus leaves the carousel, with `startAutoplay`'s per-variant outcome; otherwise nothing changes. The about carousel resumes on every `focusout` (line 637), again with `startAutoplay`'s outcome. |
| Carousels.Mount | assets/js/main.js:303 | A carousel is wired exactly when it has slides and, for hero and video, a track. |
| DepartmentTabs.PanelId | assets/js/main.js:803-807 | A tab names a panel only when `aria-controls` is present and non-empty. |
| DepartmentTabs.Resolve | assets/js/main.js:803-810 | `getPanel` finds an element exactly when the tab names an id the page has. |
| DepartmentTabs.LastController | assets/js/main.js:820-838 | The last visited tab naming a given panel: none after it names that panel. |
| DepartmentTabs.Normalise | assets/js/main.js:866-874 | A tab's `aria-controls` and `is-active` are kept. A present `aria-selected` or `tabindex` is kept. A missing `aria-selected` becomes `is-active`; a missing `tabindex` becomes 0 exactly on the active tab. |
| DepartmentTabs.MarkedTabs | assets/js/main.js:820-824 | Selection keeps every tab and its `aria-controls`; what it sets is stated by `MarkedTabsSelectOne`. |
| DepartmentTabs.PanelsAfter | assets/js/main.js:826-837 | The panel loop adds and removes no panel; which panels end shown is stated by `PanelFollowsLastController`. |
| DepartmentTabs.MarkedTabsSelectOne | assets/js/main.js:820-824 | Exactly the target is active with `aria-selected="true"` and `tabindex="0"`; every other tab gets `"false"` and `"-1"`. |
| DepartmentTabs.PanelFollowsLastController | assets/js/main.js:826-837 | Each panel ends shown iff the last tab controlling it is the target. Panels no tab controls are untouched. |
| DepartmentTabs.UniqueControlsShowOnlyTarget | assets/js/main.js:820-837 | With one tab per panel, the target's panel is shown and every other tab's panel is hidden. |
| DepartmentTabs.LaterTabOverrides | assets/js/main.js:826-837 | Two tabs sharing a panel: selecting the first still leaves the shared panel hidden. |
| DepartmentTabs.ReselectTabs | assets/js/main.js:866-874 | The default `aria-selected`/`tabindex` written at start-up, and any earlier selection, are fully overwritten by a selection. |
| DepartmentTabs.ReselectPanels | assets/js/main.js:910-925 | After two selections the panels are as after the second alone. |
| DepartmentTabs.KeyTarget | assets/js/main.js:881-903 | Every key selects a valid tab index. |
| DepartmentTabs.KeyRequestSelectsKeyTarget | assets/js/main.js:856-864 | `(index + n) % n` of each key's request is next/previous (cyclic), first or last. |
| DepartmentTabs.ArrowKeysWrap | assets/js/main.js:883-892 | ArrowRight on the last tab selects the first; ArrowLeft on the first selects the last; otherwise they step by one. |
| DepartmentTabs.StripHash | assets/js/main.js:914 | `replace('#', '')` removes the first `#`. It drops a leading `#` and leaves a fragment without `#` as it is. |
| DepartmentTabs.HashTarget | assets/js/main.js:913-923 | The fragment selects nothing when it is empty. Otherwise it selects the first tab whose `aria-controls` equals it, and none if no tab matches. |
| DepartmentTabs.HashRoundTrip | assets/js/main.js:840-849 | The fragment a selection writes leads `syncWithHash` back to the same tab when each panel has one tab. |
| DepartmentTabs.InitialTab | assets/js/main.js:910 | The first tab with `is-active`, else `tabs[0]`. |
| DepartmentTabs.StartTab | assets/js/main.js:910-925 | The tab selected after start-up is a valid index: the fragment's tab, else the initial one. |
| DepartmentTabs.InitialisationOutcome | assets/js/main.js:866-925 | Defaults, the initial selection and the first fragment sync end exactly as one selection of `StartTab`. |
| DepartmentTabs.TabGroup.constructor | assets/js/main.js:866-925 | After start-up, tabs and panels are as selecting `StartTab` makes them, the fragment is unchanged, and nothing is focused. |
| DepartmentTabs.TabGroup.Initialise | assets/js/main.js:910-925 | As the constructor, for the steps after the state is set up. |
| DepartmentTabs.TabGroup.NormaliseAttributes | assets/js/main.js:866-874 | Missing `aria-selected`/`tabindex` are derived from `is-active`; present values are kept. |
| DepartmentTabs.TabGroup.SetActive | assets/js/main.js:812-854 | The tabs become `MarkedTabs` and the panels `PanelsAfter` of the target. The fragment is rewritten exactly when `updateHash` is set, the tab names a panel, and the fragment differs; the result reports this. Focus moves only when asked. |
| DepartmentTabs.TabGroup.SelectTab | assets/js/main.js:820-838 | Tabs become `MarkedTabs` of the target, and panels become `PanelsAfter` of the target over all tabs. |
| DepartmentTabs.TabGroup.FocusTabByIndex | assets/js/main.js:856-864 | Selects `tabs[(index + n) % n]` with focus and fragment update. A negative remainder names no tab and changes nothing. |
| DepartmentTabs.TabGroup.KeyDown | assets/js/main.js:881-904 | Each handled key selects `KeyTarget` with focus and writes its fragment; other keys change nothing. |
| DepartmentTabs.TabGroup.Click | assets/js/main.js:876-879 | Selects the tab and writes its fragment without moving focus. |
| DepartmentTabs.TabGroup.SyncWithHash | assets/js/main.js:913-923 | Selects `HashTarget` (focusing only if asked) and never rewrites the fragment. Without a target nothing changes. |
| DepartmentTabs.TabGroup.HashChange | assets/js/main.js:927-929 | After the fragment changes, the matching tab is selected and focused. |
| DepartmentTabs.Mount | assets/js/main.js:798-801 | A group is wired exactly when it has tabs. |
| Consultation.FormField | assets/js/main.js:947-949 | A missing field reads as empty. A present one is its `trim()`, which neither starts nor ends with white space. |
| Consultation.Details | assets/js/main.js:951-960 | One non-empty detail line per non-empty field, each carrying one of the three labels, and the labels' ranks strictly increase along the lines: name before phone before date. |
| Consultation.ReadDetailsOf | assets/js/main.js:951-960 | Reading the detail lines back by their labels yields exactly the three fields, an empty one as empty. |
| Consultation.SplitJoin | assets/js/main.js:964 | `join('\n')` of non-empty lines without line breaks splits back into the same lines. |
| Consultation.BodyStatesFields | assets/js/main.js:951-964 | The body gives back exactly the three fields, empty ones as empty, when no field contains a line break. |
| Consultation.SubjectNamesApplicant | assets/js/main.js:962-963 | The subject is the fixed title, plus `" - " + name` exactly when a name was given; the name can be read back. |
| Consultation.Subject | assets/js/main.js:962-963 | The subject starts with the fixed title and is exactly the title when no name was given. |
| Consultation.Body | assets/js/main.js:964 | The body is empty exactly when all three fields are. |
| Consultation.Utf8 | assets/js/main.js:963 | A code point encodes to one to four bytes. |
| Consultation.Encode | assets/js/main.js:963-964 | `encodeURIComponent` output holds only unreserved characters and `%` escapes, so no `&`, `=`, `?` or `#`; it is never shorter than the input. `DecodeEncode` is its inverse. |
| Consultation.EscapeRoundTrip | assets/js/main.js:963 | The percent-encoded UTF-8 bytes of a reserved character decode back to it. |
| Consultation.DecodeEncode | assets/js/main.js:963-964 | `decodeURIComponent(encodeURIComponent(s)) == s` for every string. |
| Consultation.ParseComposed | assets/js/main.js:966 | An address of the composed shape parses into the recipient and the two decoded fields. |
| Consultation.MailtoUrl | assets/js/main.js:966 | The composed address reaches the fixed recipient with exactly the composed subject and body. |
| Consultation.Submit | assets/js/main.js:943-967 | The submitted address parses and goes to the fixed recipient. The recipient reads the trimmed name back from the subject and, when no field holds a line break, all three trimmed fields back from the body. |

## Left out

- `assets/js/includes.js` is not part of this model. It fetches and injects HTML fragments, stylesheets and scripts.
- Event wiring and timing are not modelled: `addEventListener`, `requestAnimationFrame`, `DOMContentLoaded`, `load`, and the interval's delay. Each handler is a method, and `Tick` is one firing of a live timer.
- `getComputedStyle` and `syncSliderBackground` (assets/js/main.js:311-326) are not modelled: they only copy a CSS variable to the slider background.
- `preloadAssets` (assets/js/main.js:328-362) is not modelled: it only starts image downloads.
- `offsetHeight` and `matchMedia` are inputs, given by the `Viewport` parameter, not computed layout.
- The hero's `Number.isFinite(maxHeight)` test (assets/js/main.js:410) is not modelled separately: heights are integers here, so the maximum is always finite and only the `<= 0` guard matters. The video's `updateHeight` (assets/js/main.js:668-675) has no such guard, and the model has none there either.
- The mega-menu, mobile drawer, scroll-to-top button, newsletter form, the `hasRun` guard and the `localStorage` probe (assets/js/main.js:6-283, 975-1051) are not modelled.
- `Number(attribute)` string parsing is not modelled: dot targets and intervals enter as already-parsed Numbers.
- Numbers are exact reals. Double rounding and the sign of zero are not modelled; `-0 === 0` holds anyway. `JsRuntime.WrapOfInt`, `JsRuntime.WrapMatch`, `JsRuntime.WrapSelectsNothing`, `Carousels.IntegerRequestMarksOneSlide` and `Carousels.NonIntegralRequestMarksNothing` therefore agree with the browser only when `index + slides.length` (assets/js/main.js:422) is computed exactly in double precision: integers of magnitude below 2^53, and fractions whose sum with the length does not round. Outside that range they can differ. A dot attribute of `"1e-17"` on three slides rounds to `3`, whose remainder is `0`, so the browser activates slide 0 where the model activates none. `"9007199254740992"` (2^53) rounds to 2^53 + 4, whose remainder is `0`, where the model's exact sum gives slide 2.
- Each `TabGroup` holds its own copy of `location.hash`. Several groups on one page sharing a single fragment are not modelled.
- The `location.hash = newHash` fallback (line 846) for browsers without `history.replaceState` is not modelled; it would fire an extra `hashchange`. The model follows the `replaceState` path.
- `location.hash` percent-encoding and history entries are not modelled.
- `focusTabByIndex`'s `tabs.length === 0` early return (lines 857-859) is not modelled: it cannot run, because a group without tabs is never wired (line 799).
- `event.preventDefault()` (assets/js/main.js:509, 513, 764, 768, 877, 885-898, 944) is not modelled: it only suppresses the browser's default scrolling, link navigation and form submission, which are outside the model.
- `window.location.href = mailtoUrl` is not modelled: the model returns the address.
- `encodeURIComponent` throwing `URIError` on lone surrogates is not modelled: Dafny characters are Unicode scalar values, so that input cannot arise.
- Carousels.Carousel.Tick: requires a live timer, because only a scheduled interval can fire.
