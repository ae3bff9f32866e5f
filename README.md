# Calculus sidebar navigation — a Dafny model

The site is a set of static pages of worked differential-equation exercises,
framed by one navigation shell, `CalculusSidebar`
(components/app-siderbar.tsx). This project models that shell:

- the two constant tables: `calculusData`, the menu sections in declaration
  order with their exercises, and `displayNames`, labels that take
  precedence;
- `generateUrl`, which percent-encodes each path segment with
  `encodeURIComponent` and joins the pieces under a leading `/`;
- `getDisplayName`, which looks a label up in `displayNames`, then in the
  menu (first match, sections in order), and otherwise returns its input;
- the rendered navigation: the menu with its links and highlight, the
  breadcrumb trail, the page heading and the "Volver" back link, all
  derived from the active path;
- the component's state (`activePath`, `isSidebarOpen`, `mounted`) and the
  handlers that change it: the mount effect, a click on a menu entry, and the
  menu and X buttons of the slide-in panel.

`encodeURIComponent` is modelled exactly over Unicode scalar values:
unreserved characters (ASCII letters and digits and `- _ . ! ~ * ' ( )`) stay
as they are; every other character becomes the UTF-8 bytes of its code point,
each written `%XY` with upper-case hexadecimal digits (percent-encoding,
section 2.1 of RFC 3986). `decodeURIComponent` is modelled as its partner, so
that "the URL gives back its segments" can be stated and proved.
`UriComponent.Decode`, `Url.ParseUrl`, `Url.Split` and `Url.DecodeSegments`
(reading a generated URL back into its segments) model no line of the component: the component never reads its
URLs back; they are the partners against which `generateUrl` is proved.

Files: `wrappers.dfy` (Option), `uri_component.dfy` (the encoder and
decoder), `url.dfy` (join, split, `generateUrl`, reading a URL back),
`navigation.dfy` (tables, labels, active test, menu, breadcrumbs, heading,
back link), `sidebar_state.dfy` (the rendered screen and the component's
state as a class).

## Model

| member | source | states |
|---|---|---|
| `UriComponent.Encode` | components/app-siderbar.tsx:86 | the encoding of a segment consists only of unreserved characters and `%` escapes, so it never contains `/`, and is at least as long as the segment |
| `UriComponent.DecodeEncode` | components/app-siderbar.tsx:86 | decoding the encoding of any string gives the string back |
| `UriComponent.EncodeInjective` | components/app-siderbar.tsx:86 | two segments with the same encoding are equal |
| `UriComponent.EncodeUnreserved` | components/app-siderbar.tsx:146 | a segment of unreserved characters only (every section key and exercise path of the tables) is left unchanged |
| `UriComponent.Utf8RoundTrip` | components/app-siderbar.tsx:86 | the UTF-8 bytes of a character decode back to it, and the leading byte announces the sequence's length |
| `UriComponent.Utf8` | components/app-siderbar.tsx:86 | a character becomes one to four UTF-8 bytes, exactly one when it is ASCII |
| `UriComponent.EscapeBytes` | components/app-siderbar.tsx:86 | each byte becomes three characters: `%`, then the hexadecimal digits of its high and low four bits |
| `UriComponent.EncodeChar` | components/app-siderbar.tsx:86 | one character encodes to at least one character, all unreserved or `%` |
| `UriComponent.ReadEscapedBytes` | components/app-siderbar.tsx:86 | the `%XY` escapes of a byte sequence read back as those bytes |
| `UriComponent.DecodeEncodedChar` | components/app-siderbar.tsx:86 | decoding one encoded character followed by any text yields the character followed by the decoding of the text |
| `Url.Join` | components/app-siderbar.tsx:86 | JavaScript's `join`: the pieces with the separator between them, none before the first or after the last (its inverse is `SplitJoin`) |
| `Url.Split` | components/app-siderbar.tsx:86 | JavaScript's `split` with a one-character separator, the partner of the `join` at this line used to read a URL back (the component itself never splits): always at least one piece, and `SplitJoin` proves it inverts `Join` |
| `Url.EncodeSegments` | components/app-siderbar.tsx:86 | the mapped list has one encoded piece per segment, in order |
| `Url.GenerateUrl` | components/app-siderbar.tsx:85-87 | every URL starts with `/`; the empty list gives exactly `/` |
| `Url.SplitJoin` | components/app-siderbar.tsx:86 | splitting a join of separator-free pieces at the separator gives the pieces back |
| `Url.GenerateUrlSplit` | components/app-siderbar.tsx:86 | for a non-empty list, splitting the URL after its leading `/` gives exactly the encoded segments, as many as there are segments |
| `Url.DecodeEncodedSegments` | components/app-siderbar.tsx:86 | decoding the encoded pieces gives the segments back |
| `Url.ParseGenerateUrl` | components/app-siderbar.tsx:85-87 | reading a URL generated from a non-empty list gives that list back |
| `Url.GenerateUrlInjective` | components/app-siderbar.tsx:85-87 | different non-empty segment lists give different URLs |
| `Url.EmptySegmentCollides` | components/app-siderbar.tsx:85-87 | the empty list and the list holding one empty segment both give `/`, so the round trip needs a non-empty list |
| `Url.JoinPrefix` | components/app-siderbar.tsx:86 | joining the first `k` pieces gives a prefix of the full join, followed by the separator when pieces remain |
| `Url.GenerateUrlPrefix` | components/app-siderbar.tsx:86 | the URL of the first `k` segments is a prefix of the URL of all of them, and for `1 <= k < n` it is shorter and ends where a `/` follows |
| `Navigation.Find` | components/app-siderbar.tsx:93 | `find` returns nothing exactly when no item has the path, and otherwise the first item that has it |
| `Navigation.LookupSections` | components/app-siderbar.tsx:92-96 | the section scan finds nothing exactly when no item of any section has the path |
| `Navigation.LookupFirstMatch` | components/app-siderbar.tsx:92-95 | the section scan returns the label of the first matching item, sections and items in declaration order |
| `Navigation.DisplayName` | components/app-siderbar.tsx:89-98 | the label lookup as a function: a non-empty `displayNames` entry, else the first menu match, else the input (its laws are `DisplayNamePrecedence` and `DisplayNameFirstMatch`) |
| `Navigation.GetDisplayName` | components/app-siderbar.tsx:89-98 | the loop with its early returns computes the three-level label lookup |
| `Navigation.DisplayNamePrecedence` | components/app-siderbar.tsx:89-98 | a `displayNames` entry wins over any menu match; a path found nowhere is its own label |
| `Navigation.DisplayNameFirstMatch` | components/app-siderbar.tsx:92-95 | outside `displayNames`, the first matching item in declaration order gives the label |
| `Navigation.DisplayNameFirstSection` | components/app-siderbar.tsx:92-95 | "a", an exercise of both sections, resolves through CAUCHY-EULER, the first, to "EJERCICIO A)" |
| `Navigation.DisplayNameTableEntries` | components/app-siderbar.tsx:54-57 | "calculoDiferencial" and "calculoIntegral" resolve to their `displayNames` entries |
| `Navigation.DisplayNameUnknown` | components/app-siderbar.tsx:97 | an example: "x", found in no table, is returned unchanged (the general law is `DisplayNamePrecedence`) |
| `Navigation.MenuLabelsAgree` | components/app-siderbar.tsx:38-52 | every exercise's path resolves to that exercise's own label, whichever section it is in |
| `Navigation.SectionLabelsAreKeys` | components/app-siderbar.tsx:140 | every group is labelled with its section key |
| `Navigation.MenuKeysUnique` | components/app-siderbar.tsx:38-52 | section keys are distinct, and the paths within one section are distinct |
| `Navigation.IsActive` | components/app-siderbar.tsx:149 | the active test as written: an entry is active when the active path has a second segment equal to its path, whatever its section |
| `Navigation.AtMostOneActivePerSection` | components/app-siderbar.tsx:149 | as written, at most one entry of a section is active at a time, because paths within a section are distinct |
| `Navigation.IsActiveIgnoresSection` | components/app-siderbar.tsx:149 | as written, the active test marks ORDEN-SUPERIOR-1 / a active after a click on CAUCHY-EULER / a |
| `Navigation.AtMostOneActive` | components/app-siderbar.tsx:149 | with the section compared too, no two menu entries are active at once |
| `Navigation.MenuGroupFor` | components/app-siderbar.tsx:139-156 | a section's group is labelled by the label lookup of its key and holds one entry per exercise, in order, each linking to the URL of `[section, path]` (which reads back as that pair), showing the exercise's label, and highlighted exactly when the active path's second segment is the exercise's path |
| `Navigation.MenuEntryFor` | components/app-siderbar.tsx:143-151 | an entry links to the URL of `[section, path]`, which reads back as that pair, shows the item's label, and is highlighted exactly when the active path's second segment is the item's path, the section not being compared |
| `Navigation.MenuEntryForIntended` | components/app-siderbar.tsx:143-151 | the corrected entry: the same link and label, highlighted exactly when the active path starts with the section and the path |
| `Navigation.Menu` | components/app-siderbar.tsx:138-157 | one group per section, in declaration order, each labelled with its own section key |
| `Navigation.SegmentCrumb` | components/app-siderbar.tsx:216-227 | the crumb of a segment carries its label, is plain text exactly for the last segment, and otherwise links to a URL that reads back as the path up to and including that segment |
| `Navigation.Breadcrumbs` | components/app-siderbar.tsx:211-231 | the trail has one crumb more than the active path has segments, the first being "Inicio" linking to `/` |
| `Navigation.CrumbLabel` | components/app-siderbar.tsx:216-227 | the crumb of each segment carries that segment's label, and only the crumb of the last segment is plain text |
| `Navigation.CrumbTarget` | components/app-siderbar.tsx:225 | every crumb before the current one is a link, to the URL of the segments before it (`/` for "Inicio") |
| `Navigation.BreadcrumbLinksAreAncestors` | components/app-siderbar.tsx:225 | every crumb before the last is a link to a prefix of the current URL that ends at a segment boundary and reads back as the path up to that crumb |
| `Navigation.BreadcrumbLinksNest` | components/app-siderbar.tsx:216-227 | each crumb's target is a prefix of every later crumb's target, strictly from the first segment crumb on |
| `Navigation.Heading` | components/app-siderbar.tsx:240-244 | the heading is the label of the last segment, or the default title on an empty path (its relation to the trail is `HeadingIsLastCrumb`) |
| `Navigation.HeadingIsLastCrumb` | components/app-siderbar.tsx:240-244 | the heading repeats the label of the last crumb, the current page, and is the default title on an empty path |
| `Navigation.BackHref` | components/app-siderbar.tsx:245-246 | the back link exists exactly when the active path is non-empty |
| `Navigation.BackLinkIsPreviousCrumb` | components/app-siderbar.tsx:245-246 | the back link goes where the crumb before the current one goes: `/` from one segment, otherwise a prefix of the current URL that reads back as the path without its last segment |
| `SidebarState.Render` | components/app-siderbar.tsx:167-262 | the panel shows as open exactly when the state says so, the last crumb carries the heading, and the back link is there exactly on a non-empty path |
| `SidebarState.SectionUrl` | components/app-siderbar.tsx:146 | a section's own URL is `/` followed by its key |
| `SidebarState.TwoSegmentTrail` | components/app-siderbar.tsx:216-249 | for a two-segment path, the trail is Inicio / section / exercise, the heading is the exercise's label and the back link goes to the section's URL |
| `SidebarState.ClickedItemTrail` | components/app-siderbar.tsx:216-249 | after a click on any exercise, the heading is its label, the trail is "Inicio" → `/`, section → `/section`, exercise as plain text, and the back link goes to `/section` |
| `SidebarState.TwoSegmentHighlight` | components/app-siderbar.tsx:149 | on a two-segment path, an entry of any group is highlighted exactly when its path is the second segment, the group's key not being compared |
| `SidebarState.ClickedItemHighlight` | components/app-siderbar.tsx:149-150 | after a click on any exercise, the highlighted entries are exactly those, in every section, whose path is the clicked exercise's path, at most one per section |
| `SidebarState.ClickedItemHighlightIntended` | components/app-siderbar.tsx:149-150 | with the corrected test, after a click on any exercise exactly that entry is highlighted |
| `SidebarState.CalculusSidebar.constructor` | components/app-siderbar.tsx:77-79 | initially the active path is empty, the panel is closed and the component is not mounted |
| `SidebarState.CalculusSidebar.Mount` | components/app-siderbar.tsx:81-83 | mounting sets `mounted` and changes nothing else |
| `SidebarState.CalculusSidebar.ClickMenuItem` | components/app-siderbar.tsx:105-107 | a click sets the active path to exactly `[section, path]` (the handler at line 150) and closes the panel, keeping the invariant |
| `SidebarState.CalculusSidebar.OpenSidebar` | components/app-siderbar.tsx:205 | the menu button opens the panel and changes nothing else |
| `SidebarState.CalculusSidebar.CloseSidebar` | components/app-siderbar.tsx:179 | the X button closes the panel and changes nothing else |
| `SidebarState.ValidView` | components/app-siderbar.tsx:240-249 | in any state the handlers keep valid, a mounted sidebar with an active path shows an exercise of the menu: its label as heading and a back link to `/section` |
| `SidebarState.ClickSession` | components/app-siderbar.tsx:77-83 | the handlers compose: after mounting, opening the panel, clicking an exercise and closing the panel, the exercise is the active path, its label is the heading, the panel is closed and the back link leads to `/section` |
| `SidebarState.CalculusSidebar.View` | components/app-siderbar.tsx:163-165 | nothing is rendered until the component has mounted; afterwards the shell reflects the panel state and shows a back link exactly on a non-empty path |

## Findings

| source | as written | input that shows it | evidently intended | confidence | as-written member | corrected member |
|---|---|---|---|---|---|---|
| components/app-siderbar.tsx:149 | an entry is highlighted when `activePath[1] === path`, so only the exercise segment is compared, never the section | click CAUCHY-EULER / a: the entry ORDEN-SUPERIOR-1 / a is highlighted as well (likewise b, c, d) | highlight only the entry that was clicked, comparing section and path | medium, not executed | `Navigation.IsActiveIgnoresSection` | `Navigation.AtMostOneActive` |

The rendered menu (`Navigation.Menu`, `Navigation.MenuEntryFor`,
`SidebarState.Render`) keeps the test as written, `Navigation.IsActive`, so
that the model shows what the component shows; `SidebarState.ClickedItemHighlight`
states the resulting highlight. The corrected test is `Navigation.IsActiveItem`,
used by `Navigation.MenuEntryForIntended`; `Navigation.AtMostOneActive` and
`SidebarState.ClickedItemHighlightIntended` prove what it was meant to do.

## Left out

- The exercise pages (app/page.tsx, app/CAUCHY-EULER/*, app/ORDEN-SUPERIOR-1/*, app/ORDEN-SUPERIOR-2/*): they sample fixed closed-form formulas in double-precision floating point for a chart and show fixed typeset text; there is no logic to model.
- app/layout.tsx: it only composes providers around the sidebar.
- React and Next.js mechanics: routing by `Link`, the CSS classes of the slide-in panel, the theme toggle, React keys, and the render cycle. The hydration gate is reduced to `View` returning nothing before `Mount`.
- `encodeURIComponent` throws a URIError on a lone UTF-16 surrogate; Dafny characters are Unicode scalar values, so such a string cannot be formed and that error path is not modelled.
- `getDisplayName` indexes a plain JavaScript object, so keys inherited from `Object.prototype` (such as "toString") would find a truthy function; the model's `displayNames` is a map holding only its two declared keys. No caller passes such a key: labels are only asked for section keys and exercise paths.
- `SidebarState.CalculusSidebar.ClickMenuItem`, `OpenSidebar` and `CloseSidebar` require a mounted component, and a click requires a menu exercise: the handlers exist only in the rendered menu and header, which appear only after mounting.
