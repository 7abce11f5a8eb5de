# Portfolio page state

A model of the one stateful component of a single-page portfolio site
(`src/app/page.tsx`). The page keeps five state cells. They hold the theme
flag, the contact form's email and message, the cursor of an auto-advancing
video embed, and a record that maps each project's position to the cursor of
its image carousel. Button clicks, form events and a ten-second timer
overwrite these cells.

- `rotation.dfy`, module `Rotation`: the pure part. It models JavaScript's
  truncating `%` (`JsRem`) and the `prev[index] || 0` lookup (`Cur`). It has
  one step forward and back (`NextIdx`, `PrevIdx`) and the two updater
  lambdas that rewrite one entry of the record and spread the rest
  (`NextUpdate`, `PrevUpdate`). Lemmas prove that the steps are inverse
  and that `n` steps come back to the start.
- `page.dfy`, module `Page`: the `projects` and `tiktokVideos` constants, the
  rendered lookups, and the record after any sequence of carousel clicks
  (`Run`). It proves that every lookup is in bounds from the empty record.
  The class `PageState` holds the five cells, and its methods are the
  handlers. `Tick`, `NextImage` and `PrevImage` call the pure updaters
  (`NextIdx` and `Apply`). `ToggleDark`, `EditEmail`, `EditMessage` and
  `Submit` assign their cell directly, as the source does.

The code has no zero-length guard: it divides by the length, and in
JavaScript `% 0` yields `NaN`. The model requires the length to be
positive. All the lengths are constants, and all
are positive (1, 1, 3 and 2).

## Model

| member | source | states |
|---|---|---|
| Rotation.JsRem | src/app/page.tsx:79 | JavaScript `%`: the result differs from the dividend by a multiple of `n`. It lies in `[0, n)` for a non-negative dividend and in `(-n, 0]` for a negative one. |
| Rotation.Cur | src/app/page.tsx:79 | `prev[index] \|\| 0`: a gallery with no entry has cursor 0, and otherwise its stored cursor. |
| Rotation.NextIdx | src/app/page.tsx:79 | `(c + 1) % n` lies in `[0, n)` for every `c >= -1`. From a cursor in range it is `c + 1`, or 0 after the last item. |
| Rotation.PrevIdx | src/app/page.tsx:72 | `((c - 1) + n) % n` is never negative and lies in `[0, n)` for every `c >= 1 - n`. From a cursor in range it is `c - 1`, or `n - 1` before the first item. |
| Rotation.NextUpdate | src/app/page.tsx:76-81 | The "next" updater adds or overwrites the entry for `index` with one step forward. Every other gallery's cursor is preserved by the spread. |
| Rotation.PrevUpdate | src/app/page.tsx:69-74 | The "previous" updater adds or overwrites the entry for `index` with one step back. Every other gallery's cursor is preserved by the spread. |
| Rotation.NextN | src/app/page.tsx:62-64 | Repeated forward steps from a cursor in range stay in range. |
| Rotation.PrevNextInverse | src/app/page.tsx:69-81 | Prev after Next, and Next after Prev, give back every in-range cursor. |
| Rotation.UpdatesInverse | src/app/page.tsx:69-81 | A Next click then a Prev click on one gallery, in either order, leaves every gallery's effective cursor unchanged. When the gallery already had an entry, the record is unchanged too. |
| Rotation.NextNIsShift | src/app/page.tsx:76-80 | `k` forward steps from cursor `c` give `(c + k) mod n`. |
| Rotation.NextNCycle | src/app/page.tsx:76-80 | `n` forward steps over a gallery of `n` items return to the start. |
| Page.GalleryLen | src/app/page.tsx:34-59 | Every project's gallery is non-empty, so the handlers' `%` never divides by zero. |
| Page.ImageSrc | src/app/page.tsx:274 | On an in-range record, the rendered image is one of the project's images. A project without an entry shows its first image. |
| Page.VideoSrc | src/app/page.tsx:339 | An in-range video cursor selects one of the embeds. |
| Page.Apply | src/app/page.tsx:69-81 | One carousel click sets the clicked project's cursor to one step back or one step forward from its effective cursor. It keeps every cursor inside its gallery and leaves the other projects' cursors alone. |
| Page.Run | src/app/page.tsx:69-81 | Any sequence of clicks on rendered buttons keeps every cursor inside its gallery. |
| Page.LookupInBounds | src/app/page.tsx:274 | From the initial empty record, after any clicks, `project.images[currentImageIndices[index] \|\| 0]` is in bounds. |
| Page.SingleImageStays | src/app/page.tsx:34-81 | The one-image galleries (projects 0 and 1) stay at cursor 0 and their first image under any clicks. |
| Page.OtherClicksIgnored | src/app/page.tsx:69-81 | Clicks on other projects never change a project's cursor. |
| Page.ThirdGalleryScenario | src/app/page.tsx:56-81 | In the three-image gallery, Prev from the start gives 2, then Next gives 0 and another Next gives 1. |
| Page.VideoTicks | src/app/page.tsx:16-64 | After `k` ticks from the initial 0, the video cursor is `k mod 2`. It is always 0 or 1, two ticks return to the start, and three ticks give 1. |
| Page.PageState.constructor | src/app/page.tsx:13-17 | The initial state is dark theme, empty email and message, video cursor 0 and an empty image record. |
| Page.PageState.ToggleDark | src/app/page.tsx:19 | Negates the theme flag and changes nothing else. |
| Page.PageState.EditEmail | src/app/page.tsx:364 | The email field's change handler stores the new value and changes nothing else. |
| Page.PageState.EditMessage | src/app/page.tsx:377 | The message field's change handler stores the new value and changes nothing else. |
| Page.PageState.Submit | src/app/page.tsx:21-26 | Leaves email and message empty and touches nothing else. |
| Page.PageState.Tick | src/app/page.tsx:62-64 | Sets the video cursor to `(prev + 1) % tiktokVideos.length`, keeps it in range and leaves every other cell alone. |
| Page.PageState.NextImage | src/app/page.tsx:76-81 | `handleNextImage`: the project's cursor becomes `(old-or-0 + 1) % n`, and the other projects' cursors and cells are unchanged. The record stays in range. |
| Page.PageState.PrevImage | src/app/page.tsx:69-74 | `handlePrevImage`: the project's cursor becomes `(old-or-0 - 1 + n) % n`, and the other projects' cursors and cells are unchanged. The record stays in range. |
| Page.PageState.CurrentImage | src/app/page.tsx:274 | The rendered image is `images[Cur(imageIndices, index)]`, the image the project's effective cursor selects. It is one of the project's images, and the first one until the carousel is used. |
| Page.PageState.CurrentVideo | src/app/page.tsx:339 | The rendered embed is `tiktokVideos[videoIndex]`, the one the video cursor selects, and so always one of the listed videos. |
| Page.ToggleTwice | src/app/page.tsx:19 | Toggling the theme twice is the identity: the theme is restored, and email, message, video cursor and image record are unchanged. |
| Page.NextThenPrev | src/app/page.tsx:69-81 | On the page state, a Next click then a Prev click on a project that has an entry restores the image record exactly. The theme, email, message and video cursor are unchanged. |

## Left out

- JSX markup, Tailwind class selection, framer-motion animations, `FadeInSection`/`useInView` and the icons: these are presentation only.
- The `setInterval`/`clearInterval` lifecycle in `useEffect` (src/app/page.tsx:61-67): the host runtime drives the timer. One tick is the method `Tick`, and the mount/unmount states are not modelled.
- React's state batching, re-rendering and effect dependencies. In particular, `toggleDarkMode` reads the rendered `darkMode` rather than using an updater. Two toggles inside one render would therefore collapse into one. The model applies each handler to the current state.
- `console.log` in `handleSubmit` and `e.preventDefault()`: output and a browser call with no effect on the modelled state.
- The browser's `type="email"` and `required` form validation: the host does it, not the page's code.
- `next/image`, `<video>`, `<iframe>` and the external URLs: foreign components and network resources. The projects' descriptions, links, technologies and videos are left out of `Project`, since no state depends on them.
- JavaScript's `% 0` giving `NaN`: excluded by the precondition `n > 0`, which every gallery and the video list meet.
- Page.PageState.NextImage and Page.PageState.PrevImage: require `index` to be a project position. The buttons are only rendered inside `projects.map`, and any other index would make `projects[index]` throw.
