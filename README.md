# Portfolio project modal — a verified model

The portfolio is a single page of static content. Its only state is the
project-detail modal kept by the page component `Home`: the active project
(`null` while the modal is closed) and the index of the gallery slide on
display. This project models that state and the five handlers that change it:

- opening a project card;
- closing the modal, by the close button or by a click on the backdrop;
- the "previous" arrow of the carousel;
- the "next" arrow of the carousel;
- the indicator dots, which jump to a given slide.

It proves what the handlers promise about the two cells.

Files:

- `wrappers.dfy` holds `Option`, which stands for JavaScript's `null` and
  `undefined`.
- `carousel.dfy` holds the slide arithmetic. JavaScript's `%` takes the sign
  of the dividend, so it is written out as `TruncRem`; Dafny's own `%` is
  Euclidean. The module proves the wrap-around of "next" and "previous", that
  each undoes the other, and closed forms for pressing either one `k` times.
  One of those: pressing "next" once per slide comes back to the start.
- `project_modal.dfy` holds the `ProjectInfo` record and the class `Modal`.
  The class has the two state cells as fields and one method per handler.
  `Valid()` is the modal's invariant: a closed modal shows slide 0, and a
  non-empty gallery shows one of its own slides. Every handler keeps it.

## Model

| member | source | states |
|---|---|---|
| `Carousel.TruncRem` | src/app/page.tsx:211 | JavaScript `%` for a positive divisor: the result is in the dividend's residue class and has its sign. It lies in [0, n) for a non-negative dividend and in (-n, 0] for a negative one, and a dividend already in [0, n) is returned unchanged |
| `Carousel.TruncRemIsEuclideanWhenNonNegative` | src/app/page.tsx:217 | on a non-negative dividend, JavaScript's `%` and the Euclidean `%` agree |
| `Carousel.TruncRemDiffersOnNegative` | src/app/page.tsx:211 | on a negative dividend they differ: `-1 % 3` is -1 in JavaScript and 2 in Euclidean arithmetic |
| `Carousel.NextSlide` | src/app/page.tsx:217 | `(prev + 1) % totalSlides` stays within [0, total) for every index from -1 up. It is `s + 1` below the last slide and 0 on the last slide |
| `Carousel.PreviousSlide` | src/app/page.tsx:211 | `(prev - 1 + totalSlides) % totalSlides` stays within [0, total) for every index from `1 - total` up. It is `s - 1` above slide 0 and `total - 1` on slide 0 |
| `Carousel.PreviousSlideDividendNonNegative` | src/app/page.tsx:211 | for every index `s >= 0` the dividend `s - 1 + total` is non-negative. So the JavaScript result equals the Euclidean `(s - 1 + total) mod total` |
| `Carousel.PreviousUndoesNext` | src/app/page.tsx:208-218 | on every index in [0, total), "previous" after "next" gives back the index |
| `Carousel.NextUndoesPrevious` | src/app/page.tsx:208-218 | on every index in [0, total), "next" after "previous" gives back the index |
| `Carousel.AdvanceClosedForm` | src/app/page.tsx:214-218 | pressing "next" `k` times from slide `s` in [0, total) lands on `(s + k) mod total` |
| `Carousel.AdvanceFullCycle` | src/app/page.tsx:214-218 | pressing "next" `total` times from any valid slide returns to that slide |
| `Carousel.RetreatClosedForm` | src/app/page.tsx:208-212 | pressing "previous" `k` times from slide `s` in [0, total) lands on `(s - k) mod total` (Euclidean) |
| `Carousel.RetreatFullCycle` | src/app/page.tsx:208-212 | pressing "previous" `total` times from any valid slide returns to that slide |
| `ProjectModal.SlideCount` | src/app/page.tsx:209-210 | `activeProject?.gallery?.length` is 0 exactly when no project is active, its gallery is absent or its gallery is empty. These are the cases where the navigation handlers return early. Otherwise it is the gallery's length |
| `ProjectModal.SlideAfterNext` | src/app/page.tsx:214-218 | with no project or an empty gallery, "next" leaves the slide unchanged. Otherwise it moves forward one slide and wraps from the last slide to 0. It keeps the modal invariant |
| `ProjectModal.SlideAfterPrevious` | src/app/page.tsx:208-212 | with no project or an empty gallery, "previous" leaves the slide unchanged. Otherwise it moves back one slide and wraps from 0 to the last slide. It keeps the modal invariant |
| `ProjectModal.PreviousAfterNext` | src/app/page.tsx:208-218 | in every well-formed modal state, "previous" after "next" restores the slide. This includes the no-op cases |
| `ProjectModal.NextAfterPrevious` | src/app/page.tsx:208-218 | in every well-formed modal state, "next" after "previous" restores the slide |
| `ProjectModal.Modal.constructor` | src/app/page.tsx:195-196 | the cells start as no project and slide 0, a state that satisfies the invariant |
| `ProjectModal.Modal.Open` | src/app/page.tsx:198-201 | opening sets the active project and resets the slide to 0, whatever was shown before. It keeps the invariant |
| `ProjectModal.Modal.Close` | src/app/page.tsx:203-206 | closing clears the project and resets the slide to 0. On a closed modal it changes nothing, so it is idempotent. It keeps the invariant |
| `ProjectModal.Modal.ShowPrevious` | src/app/page.tsx:208-212 | the project is unchanged and the slide becomes `SlideAfterPrevious` of the old state. It keeps the invariant |
| `ProjectModal.Modal.ShowNext` | src/app/page.tsx:214-218 | the project is unchanged and the slide becomes `SlideAfterNext` of the old state. It keeps the invariant |
| `ProjectModal.Modal.GoTo` | src/app/page.tsx:531-535 | a dot sets the slide to its own index and leaves the project unchanged. The index comes from enumerating the active gallery, so it is a valid slide. It keeps the invariant |

The method `ProjectModal.Walkthrough` follows several sequences through the
handlers' contracts alone:

- a three-slide gallery goes 0, 1, 2, back to 0, and "previous" then wraps to 2;
- closing an already-closed modal leaves no project on slide 0;
- opening another project resets the slide to 0.

A gallery with exactly one image needs no special case. There,
`NextSlide(0, 1)` and `PreviousSlide(0, 1)` are both 0, so the handlers
leave the slide where it is, even though the page does not render the
arrows for such a gallery.

## Left out

- Rendering is not modelled: the JSX markup, Tailwind class strings, `buttonVariants`, the `Section` component and the `next/image` component. They are presentation and hold no state.
- The static content arrays are not modelled: `navItems`, `actionLinks`, `skillTags`, `projects`, `certifications` and `contactChannels`. They are read-only data, so projects enter the model as parameters of `Open`.
- The condition that renders the arrows and dots only for galleries longer than one slide is not modelled. It governs display only; the handlers guard only on an empty gallery, and the model follows the handlers.
- `stopPropagation` and event bubbling are not modelled. Only their effect is: a click on the backdrop calls `Close`, and a click inside the dialog does not.
- React's scheduling of `useState` updates is not modelled. Each handler is one immediate, atomic update of both cells. This includes the functional update `setActiveSlide((prev) => …)`.
- `ProjectModal.Modal.GoTo` requires the index to be a slide of the active gallery. The handler itself does no bounds check, but its only caller passes an index produced by enumerating that gallery.
- JavaScript numbers are doubles; the model uses unbounded integers. The indices involved are gallery positions, far below the range where doubles lose integer precision.
