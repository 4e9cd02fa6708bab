# EventTable schedule component — a Dafny model

This project models the event-schedule template component of a static site
(`src/site/_includes/components/EventTable.js`). Given the conference days,
each with its sessions, the component:

- picks the day whose tab is open by default when no script runs. It is
  meant to pick the first day whose end time is after the build time, else
  day 0. As written it always picks day 0 (see "## Findings");
- gives every session row an anchor id derived from its title;
- normalises each session's `speaker` and `abstract` fields to lists;
- emits one tab per day, marking the default day's tab with the class
  `w-tabs-default`, and optionally a carousel with one entry per day.

The anchor ids come from `slugForTitle`. It keeps a table `slugs`, scoped to
one render, that maps issued ids to titles. It derives a base id from the
title and tries `base`, `base1`, `base2`, ... until one is free. It then
records the id and returns it.

Modules:

- `Wrappers` — `Option`, for fields that may be `undefined`.
- `Decimal` — the decimal rendering that `base + ++suffix` produces for the
  suffix, and its inverse.
- `DateValue` — JavaScript time values as integers or NaN, plus
  `getMinutes`, `setMinutes`, `+` and `<` with their NaN behaviour
  (section 21.4.4.24 of ECMA-262 for `setMinutes`).
- `Slugs` — the search for the first free candidate, the `SlugRegistry`
  class (the `slugs` table and `slugForTitle`, which reassigns it in place),
  and `IssueAll`, the specification of successive calls.
- `EventTable` — the session and day records, field normalisation, the
  default-day scan, the tab marker, and the rendered structure. That
  structure is which tabs and rows appear, in which order, under which ids
  and with which fields. It is not the markup text.

The slug library that turns a title into its base id is not part of this
model. It enters as a function `baseOf` that the registry is built with.
The current time enters the render as the parameter `now`.

## Model

| member | source | states |
|---|---|---|
| Slugs.Candidate | src/site/_includes/components/EventTable.js:54-57 | definition of the k-th id tried: the base itself, then the base followed by the decimal k; CandidateInjective proves the ids tried are all different |
| Slugs.ProbeFrom | src/site/_includes/components/EventTable.js:56-57 | definition of the `while (id in slugs)` search from the k-th candidate on; ProbeFromIsLeast proves where it stops |
| Slugs.FreeSuffix | src/site/_includes/components/EventTable.js:55-57 | definition of the final value of `suffix`; FreeSuffixIsLeast proves it is the least k whose candidate is free |
| Slugs.FirstFree | src/site/_includes/components/EventTable.js:54-58 | definition of the id the search returns; FirstFreeIsLeastUnused proves it is unused and least |
| Slugs.IssueAll | src/site/_includes/components/EventTable.js:46-67 | successive `slugForTitle` calls from one table, as a function: the ids in order and the final table; the number of ids equals the number of titles |
| Slugs.SlugRegistry.constructor | src/site/_includes/components/EventTable.js:46 | each render starts from an empty slug table |
| Slugs.SlugRegistry.SlugForTitle | src/site/_includes/components/EventTable.js:47-61 | the returned id was not in the table, it is the first free candidate for the title's base, and the table gains exactly the entry id → title. The loop invariant `suffix <= |slugs|`, kept with ProbeBound, bounds the probing, and ProbeFromIsLeast gives the same bound for FirstFree |
| Slugs.CandidateInjective | src/site/_includes/components/EventTable.js:57 | different suffix counts give different candidates, so the probing never revisits an id |
| Slugs.CandidatesSize | src/site/_includes/components/EventTable.js:54-58 | the first k candidates for a base are k distinct ids |
| Slugs.ProbeBound | src/site/_includes/components/EventTable.js:56-58 | if the first k candidates are all taken, the table has at least k entries, so the suffix never exceeds the table size |
| Slugs.ProbeFromIsLeast | src/site/_includes/components/EventTable.js:54-58 | probing stops on a free candidate within `|slugs|` increments, and every earlier candidate was taken |
| Slugs.FreeSuffixIsLeast | src/site/_includes/components/EventTable.js:54-58 | the number of increments is exactly the least k whose candidate is free (both directions) |
| Slugs.FirstFreeIsLeastUnused | src/site/_includes/components/EventTable.js:54-58 | the issued id is unused; it is the base when the base is free, and otherwise base + k for the least k ≥ 1 with base + k free |
| Slugs.IssueAllDistinct | src/site/_includes/components/EventTable.js:46-67 | ids issued by successive calls are new to the starting table and pairwise distinct |
| Slugs.IssueAllTable | src/site/_includes/components/EventTable.js:59 | after successive calls the table keeps every earlier entry, maps each issued id to its title, and holds nothing else |
| Slugs.IssueAllSnoc | src/site/_includes/components/EventTable.js:59-60 | one more call appends the first free id for the new title to the ids and records it in the table |
| Slugs.IssueAllAppend | src/site/_includes/components/EventTable.js:46 | issuing for two runs of titles in a row equals issuing for their concatenation from the same table |
| Slugs.SameBaseInOrder | src/site/_includes/components/EventTable.js:54-58 | when every title has the same base and the table holds exactly that base's first n candidates, the titles get the following candidates in processing order: base + n, base + (n+1), ...; from an empty table, base, base1, base2, ... |
| Slugs.SameBaseLaterSuffix | src/site/_includes/components/EventTable.js:54-58 | for any titles, mixed bases included, a later title with the same base as an earlier one gets a strictly larger suffix. Each id is the candidate for the least free suffix against the table the earlier titles left. Titles with other bases can occupy candidates in between, so the suffixes need not be consecutive |
| Slugs.InterleavedBases | src/site/_includes/components/EventTable.js:54-58 | titles with bases intro, intro1, intro, issued into an empty table, get "intro", "intro1", "intro2": the second intro title gets suffix 2, not 1 |
| Slugs.IssuedAt | src/site/_includes/components/EventTable.js:67 | the id issued for the i-th title is the first free candidate for it against the table the earlier titles left |
| Slugs.TableGrows | src/site/_includes/components/EventTable.js:59 | the table only grows as later titles are issued for |
| Slugs.SameBaseThrice | src/site/_includes/components/EventTable.js:54-58 | three titles with one base, e.g. three "Intro" sessions, get "intro", "intro1", "intro2" |
| Slugs.SlugAsWritten | src/site/_includes/components/EventTable.js:56-58 | the id issued as written is neither recorded nor an inherited prototype name |
| Slugs.ConstructorBaseSkipped | src/site/_includes/components/EventTable.js:56 | with the code as written, the base "constructor" gets "constructor1" on an empty table, where the intended search gives "constructor" |
| Decimal.DecimalString | src/site/_includes/components/EventTable.js:57 | the suffix text is a non-empty run of digits without a leading zero |
| Decimal.ParseDecimalString | src/site/_includes/components/EventTable.js:57 | reading the suffix text back gives the suffix |
| Decimal.DecimalStringInjective | src/site/_includes/components/EventTable.js:57 | distinct suffixes render as distinct texts |
| DateValue.LessThan | src/site/_includes/components/EventTable.js:40 | definition of `now < endTime`: false whenever either side is NaN; AsWrittenAlwaysFirstDay relies on it |
| DateValue.MinFromTime | src/site/_includes/components/EventTable.js:38 | the minute field of a time value lies in 0..59 |
| DateValue.SetMinutes | src/site/_includes/components/EventTable.js:38 | definition of `setMinutes`: the minute field is replaced, and a NaN date or a NaN argument (a missing argument is NaN) gives NaN; SetMinutesField and SetMinutesAdvances state what it does, and EndTimeAsWritten its NaN case |
| DateValue.SetMinutesField | src/site/_includes/components/EventTable.js:38 | setting the minutes to m in 0..59 makes m the minute field and keeps the hour count and the time within the minute |
| DateValue.SetMinutesAdvances | src/site/_includes/components/EventTable.js:38 | setting the minutes to the current minutes plus d moves the time d minutes later |
| EventTable.EndTime | src/site/_includes/components/EventTable.js:37-38 | the intended end time is the start plus the duration in minutes |
| EventTable.EndTimeAsWritten | src/site/_includes/components/EventTable.js:37-38 | the end time as line 38 computes it is NaN for every day |
| EventTable.FirstDayEndingAfter | src/site/_includes/components/EventTable.js:35-44 | it finds the first index whose day ends after now, and finds none exactly when no day does |
| EventTable.DefaultDay | src/site/_includes/components/EventTable.js:33-44 | the default day is the first day ending after now, or 0 when there is none; it is a valid index whenever there are days |
| EventTable.SelectDefaultDay | src/site/_includes/components/EventTable.js:33-44 | the scan with its early exit computes DefaultDay |
| EventTable.AsWrittenAlwaysFirstDay | src/site/_includes/components/EventTable.js:37-43 | with the end time as written, the scan yields 0 for every day list and every time |
| EventTable.LaterDayExample | src/site/_includes/components/EventTable.js:35-43 | given a day that ended an hour ago and a day that starts in an hour, the intended scan picks day 1 and the code as written picks day 0 |
| EventTable.DayClass | src/site/_includes/components/EventTable.js:99 | definition of a tab's class: `w-tabs-default` on the default day and "" elsewhere; DefaultMarkerUnique proves exactly one tab gets the marker |
| EventTable.DefaultMarkerUnique | src/site/_includes/components/EventTable.js:99 | exactly one tab, the default day's, carries `w-tabs-default` when there are days, and none otherwise |
| EventTable.Authors | src/site/_includes/components/EventTable.js:65 | definition of the author list: a string speaker becomes a one-element list, and anything else passes through; SpeakerStringAsSingleton and AuthorsIdempotent state its properties |
| EventTable.Truthy | src/site/_includes/components/EventTable.js:71 | definition of JavaScript truthiness for a session field: absent and "" are falsy, and arrays are truthy |
| EventTable.AbstractParts | src/site/_includes/components/EventTable.js:70-72 | definition of the abstract's paragraphs; AbstractPartsCount states what each kind of value gives |
| EventTable.SpeakerStringAsSingleton | src/site/_includes/components/EventTable.js:65 | a single-string speaker and a one-element speaker array give the same author list |
| EventTable.AuthorsIdempotent | src/site/_includes/components/EventTable.js:65 | authors are present exactly when a speaker is given, an array speaker passes through unchanged, and normalising the normalised list changes nothing |
| EventTable.AbstractPartsCount | src/site/_includes/components/EventTable.js:70-72 | a missing abstract or "" gives no paragraphs, a non-empty string gives exactly that string as its one paragraph, an array gives its elements, and normalising again changes nothing |
| EventTable.RowFor | src/site/_includes/components/EventTable.js:63-92 | definition of a session's row under a given id: normalised authors, the title, the blurb defaulting to "", and the abstract's paragraphs; RenderSession proves the row it builds is this one |
| EventTable.Preview | src/site/_includes/components/EventTable.js:117-121 | definition of the thumbnail choice: shown only for a truthy (non-empty) video id; Render states it for each carousel entry |
| EventTable.RenderSession | src/site/_includes/components/EventTable.js:63-92 | a row holds the normalised fields, a blurb defaulting to "", and the id the registry issues for the title; the table gains that id |
| EventTable.RenderDay | src/site/_includes/components/EventTable.js:94-114 | a tab carries the day's label, the default marker only on the default day, the day's start and duration, and one row per session in order, with ids issued by successive calls |
| EventTable.IssueDaysAll | src/site/_includes/components/EventTable.js:110-140 | issuing ids day by day from one shared table equals issuing them for all titles in order |
| EventTable.RenderDays | src/site/_includes/components/EventTable.js:140 | one tab per day, in day order, all drawing ids from the same table; the row ids and the final table are those of issuing for all titles in order |
| EventTable.CarouselDays | src/site/_includes/components/EventTable.js:130-134 | one carousel entry per day |
| EventTable.Render | src/site/_includes/components/EventTable.js:28-143 | one tab per day; the marker is on exactly the default day; all row ids of one render are pairwise distinct; the carousel is present exactly when requested, with one entry per day carrying its index, thumbnail video and title |

## Left out

- The slug library's normalisation of a title into its base id (lower case, strict, removal of characters other than word characters, space, `-` and `_`) is not part of this model. It is the uninterpreted `baseOf`.
- The markup text is not modelled. This covers the `html` template tag, escaping, class names other than `w-tabs-default`, the YouTube thumbnail URL, and `toISOString` of the day's start. The model keeps what the markup is built from.
- The author and date block (`AuthorsDate`) and the `authorsCollection` it reads are not part of this model. The row keeps the normalised author list passed to it.
- The custom elements (`web-event-schedule`, `web-tabs`, `web-event-time`) and all client-side behaviour are left out.
- The clock: `new Date()` becomes the parameter `now`.
- EndTime: the time zone is taken as UTC, so across a daylight-saving change the local-time `setMinutes` of the source can differ by the offset change.
- EndTime: time values are integers without the TimeClip range limit, and a fractional duration is not modelled.
- Field values the data never uses are not modelled. Speakers and abstracts are a string, an array of strings, or absent. A `null` blurb and non-string titles are left out, as is a missing title, on which the slug library throws.
- Slugs.ProbeFrom: the search function carries the table size as a termination bound. ProbeFromIsLeast proves the bound is never the reason it stops.

## Findings

| source | as written | input that shows it | evidently intended | confidence | as-written member | corrected member |
|---|---|---|---|---|---|---|
| src/site/_includes/components/EventTable.js:38 | `endTime.setMinutes()` with no argument sets the date to NaN and returns NaN, so every end time is NaN, `now < endTime` is always false, and the default day is always 0 | days [start now−2h, 60 min; start now+1h, 60 min] at time now: the code picks day 0 | `getMinutes()` in the inner call, so the end time is start + duration and day 1 is picked | high; not executed | EventTable.AsWrittenAlwaysFirstDay | EventTable.SelectDefaultDay |
| src/site/_includes/components/EventTable.js:56 | `id in slugs` on an object literal also sees names inherited from Object.prototype, so the base "constructor" counts as taken on an empty table | a session titled "Constructor" (base "constructor") as the first session of a render gets the id "constructor1" | only ids recorded in this render count as taken, so the id is "constructor" | medium; not executed | Slugs.ConstructorBaseSkipped | Slugs.SlugRegistry.SlugForTitle |

The default-day scan as written disagrees with the component's own comment.
The comment says the scan picks the first day whose end time is after the
build time. The model of the render (`EventTable.Render`) follows the
corrected behaviour of both findings:

- It passes the corrected end time `EndTime` to the default-day scan. The
  as-written scan is `EndTimeAsWritten` passed to `DefaultDay`.
- It issues ids through `SlugRegistry.SlugForTitle`, which treats only the
  ids recorded in this render as taken. For a title whose base is
  "constructor", its ids therefore differ from the source's: the source skips
  "constructor", and `SlugAsWritten` models that.
