# openshift-dd-ext: login command, storage cache and image selector

This project models three pieces of the OpenShift extension for Docker Desktop
and proves properties of them in Dafny:

- **the `oc login` command extractor** and **the login form**
  (`client/src/dialogs/login.tsx`). The extractor pulls the cluster URL and
  bearer token out of pasted text with the regular expression
  `/oc login (?<cluster>.*) --token=(?<token>.*)/`. The form is the login
  dialog's state: four validated fields, a credentials/token tab, a paste
  handler that fills the fields, and a login handler that picks the host out
  of the cluster URL.
- **the two-tier storage cache** (`client/src/hooks/useStorageState.ts`). This
  is React state mirrored into `localStorage` (durable) or `sessionStorage`
  (per session). A read falls back to a default, and every bound value is
  written back serialised. A read is a function of the storage it is given,
  so it cannot modify the storage. Two reads with no write between them
  agree by construction.
- **the image selector** (`client/src/imageSelector.tsx`). It lists the local
  images as sorted drop-down entries and keeps a selection. It has Reload and
  Deploy buttons, and a deploy callback.

Layout (one module per file):

| file | module | what it holds |
|---|---|---|
| `wrappers.dfy` | `Wrappers` | `Option` and `Result` |
| `text.dfy` | `Text` | JavaScript line terminators and `trim` whitespace, `Trim`, substring search |
| `login_command.dfy` | `LoginCommand` | the regular expression's matches declaratively, the extractor, round trip |
| `login_form.dfy` | `LoginForm` | field validation, `isValid`, the dialog's handlers, the host split, the cleared-cluster correction |
| `storage_state.dfy` | `StorageState` | storages, `getStorageValue`, `useStorage`, the two tiers |
| `string_order.dfy` | `StringOrder` | the default order of `Array.prototype.sort` and a sort on distinct strings |
| `image_selector.dfy` | `ImageSelector` | the selector's state and handlers, the displayed value, the buttons |

How the regular expression is modelled: `MatchAt(s, Span(start, marker, end))`
says that `oc login ` occurs at `start` and ` --token=` occurs at `marker`, and
that both groups hold no line terminator (`.` matches no LF, CR, U+2028 or
U+2029). `IsReportedMatch` picks the match that JavaScript's backtracking
reports:

- the leftmost start;
- at that start, the last marker (the first `.*` is greedy);
- at that start and marker, the longest token.

`ParseOcLoginCommand` is a scan over the text. Its contract ties it to that
definition in both directions.

Collaborators the code calls but does not own are parameters of the model:

- `validator.isURL` is `isUrl: string -> bool`.
- `JSON.stringify` / `JSON.parse` form a `Codec`.
- The images `getLocalImages` returns are given to a load, together with the
  order the host listed them in.

Where the code behaves differently from what a user of the dialog or the cache might expect, the model follows the code:

- A command with an empty cluster or an empty token still parses
  (`EmptyClusterAccepted`, `EmptyTokenAccepted`).
- A corrupt stored payload is an error, not the default
  (`CorruptPayloadIsAnError`).
- An empty stored payload reads as the default, like an absent key.
- Two bindings of the same key in the same tier each hold their own React
  state. Neither sees the other's writes until it binds again, and the last
  write-back wins in storage.
- Two commands pasted on one line merge into one. The cluster runs on into
  the second command, and only the second command's token is kept
  (`AdjacentCommandsMerge`).

## Model

| member | source | states |
|---|---|---|
| LoginCommand.ParseOcLoginCommand | client/src/dialogs/login.tsx:173-183 | The result is `undefined` exactly when no line of the text holds `oc login ` followed later on that line by ` --token=`. Otherwise it is the two groups of the match the regular expression reports. Both groups are single-line, and the token never contains ` --token=`. |
| LoginCommand.FindFrom | client/src/dialogs/login.tsx:174-175 | A scan from a position finds no match there exactly when no match starts at or after it. When it finds one, no match starts before it, no later marker works at its start, and no longer token does. |
| LoginCommand.TokenHasNoMarker | client/src/dialogs/login.tsx:174 | Because the cluster group is greedy, the reported token never contains ` --token=`. |
| LoginCommand.ReportedMatchUnique | client/src/dialogs/login.tsx:174-175 | At most one match satisfies the leftmost-then-greedy preference, so the result is determined. |
| LoginCommand.ParseReturnsReportedMatch | client/src/dialogs/login.tsx:175-181 | Whenever a span is the preferred match, the parse returns exactly its groups. |
| LoginCommand.RenderedMatch | client/src/dialogs/login.tsx:174 | `oc login <cluster> --token=<token>` with single-line parts matches, at the obvious span, with the given groups. |
| LoginCommand.ParseRenderRoundTrip | client/src/dialogs/login.tsx:173-183 | Parsing a rendered command gives the command back exactly when its token does not contain ` --token=`. The parts must be single-line. |
| LoginCommand.ParsedCommandIsVerbatim | client/src/dialogs/login.tsx:174-180 | The groups come back verbatim: `oc login <cluster> --token=<token>` built from the result occurs in the input, at a start that no match precedes. |
| LoginCommand.LaterLinesIgnored | client/src/dialogs/login.tsx:174-175 | Once the text up to a line break parses, anything after the break cannot change the result. |
| LoginCommand.LaterLinesIgnoredAt | client/src/dialogs/login.tsx:174-175 | The preferred match of the first part is the result for the whole text. |
| LoginCommand.DocumentedExample | client/src/dialogs/login.tsx:148-150 | The example command in the paste handler's comment parses to its URL and token. |
| LoginCommand.EmptyClusterAccepted | client/src/dialogs/login.tsx:174 | The cluster's `.*` may match nothing: `oc login  --token=T` gives an empty cluster and the token `T`. |
| LoginCommand.EmptyTokenAccepted | client/src/dialogs/login.tsx:174 | The token's `.*` may match nothing: `oc login C --token=` gives the cluster `C` and an empty token. |
| LoginCommand.AdjacentCommandsMerge | client/src/dialogs/login.tsx:174-181 | Two single-line commands pasted on one line, separated by a space, parse as one command. Its cluster runs from the first cluster through the first token and the second `oc login ` to the second cluster, and its token is the second token. |
| LoginCommand.MatchesEndWithinLine | client/src/dialogs/login.tsx:174 | Every match starting at a position ends before the first line break after its prefix. |
| Text.Trim | client/src/dialogs/login.tsx:56 | `trim` gives the empty string exactly on all-whitespace text. Otherwise its result starts and ends with a character that is not whitespace. |
| Text.TrimCutsOnlyWhitespace | client/src/dialogs/login.tsx:40 | What `trim` keeps is one contiguous piece of the text, and everything it removes is whitespace. |
| LoginForm.ValidateUrl | client/src/dialogs/login.tsx:39-41 | The cluster's message is empty or "Invalid Cluster URL". It is empty exactly for a non-empty value whose trimmed text is a URL. The empty value always gets the message. |
| LoginForm.ValidateNonBlank | client/src/dialogs/login.tsx:43-53 | No message exactly when the trimmed value is non-empty, and the field's own message otherwise. |
| LoginForm.NonBlankValidators | client/src/dialogs/login.tsx:43-53 | The username, password and token validators each accept exactly the non-blank values, each with its own message. |
| LoginForm.InitialFormIsReset | client/src/dialogs/login.tsx:32-36 | The dialog starts closed, with all four fields at `DEFAULT_STATUS` and the credentials tab (the tab's own state is at line 140). That is a state `handleClose` leaves unchanged, and Login is disabled in it. |
| LoginForm.Edit | client/src/dialogs/login.tsx:225-291 | Each input goes through its own validator: the cluster through `validateUrl`, and the username, password and token through their non-blank validators. The edited field holds the value typed, is in error exactly when it has a message, and nothing else changes. |
| LoginForm.HandleOnChange | client/src/dialogs/login.tsx:61-68 | The edited field holds the value verbatim with its validator's message, and it is in error exactly when there is a message. Every other field, the open flag and the tab are unchanged. |
| LoginForm.EditKeepsConsistent | client/src/dialogs/login.tsx:61-68 | If every field's message matches its value, it still does after any edit. |
| LoginForm.IsValid | client/src/dialogs/login.tsx:55-59 | On each tab, Login is enabled exactly when the cluster is non-blank with no message and that tab's fields have no message. On any other tab number it is never enabled. |
| LoginForm.ValidMeansFilledIn | client/src/dialogs/login.tsx:55-59 | When the cluster and the shown tab's fields carry current messages, Login is enabled exactly when the cluster is a URL and the shown tab's fields are non-blank. The hidden tab's fields may hold anything. |
| LoginForm.TypedCredentialsEnableLogin | client/src/dialogs/login.tsx:55-68 | In a reset and reopened dialog on the credentials tab, after typing a cluster, a username and a password (the token untouched), Login is enabled exactly when the URL is accepted and both credentials are non-blank. |
| LoginForm.IsValidIgnoresOtherTab | client/src/dialogs/login.tsx:55-59 | The hidden tab's fields play no part in enabling Login. |
| LoginForm.CredentialsNeedNoEdit | client/src/dialogs/login.tsx:55-58 | On the credentials tab, a valid cluster enables Login while username and password are still untouched and empty. The code itself flags this case. |
| LoginForm.HandleOpen | client/src/dialogs/login.tsx:90-95 | Opening shows the dialog and changes no field and not the tab. |
| LoginForm.HandleTabChange | client/src/dialogs/login.tsx:142-144 | The tab becomes the chosen one, and nothing else changes. |
| LoginForm.HandleClose | client/src/dialogs/login.tsx:97-103 | Closing hides the dialog, resets all four fields to the empty, message-free default, and keeps the tab. |
| LoginForm.ClosedFormIsInvalid | client/src/dialogs/login.tsx:97-103 | After closing, Login is disabled. |
| LoginForm.CloseIsIdempotent | client/src/dialogs/login.tsx:97-103 | Closing twice is closing once. |
| LoginForm.HandleClusterPaste | client/src/dialogs/login.tsx:146-167 | Text with no command changes nothing. A command fills the cluster and token values and switches to the token tab. Each field keeps its old message, its error flag is its validator's verdict on the new value, and the other fields are unchanged. |
| LoginForm.PasteIsIdempotent | client/src/dialogs/login.tsx:146-167 | Pasting the same text twice is pasting it once. |
| LoginForm.PasteCanEnableRejectedUrl | client/src/dialogs/login.tsx:152-156 | Because the paste handler's update keeps the old message, after that update for a command whose cluster `isUrl` rejects, the field shows an error and yet Login is enabled. |
| LoginForm.HostOf | client/src/dialogs/login.tsx:73 | `split('://')[1]` is undefined exactly when the URL has no `://`. Otherwise it is the text that starts right after the first `://` and runs up to the next `://`, or to the end of the URL when there is no other. It holds no `://`. |
| LoginForm.SecondPieceUnique | client/src/dialogs/login.tsx:73 | The URL determines that piece: two pieces that both start after the first `://` and end at the next one are equal. |
| LoginForm.HostOfUrl | client/src/dialogs/login.tsx:73 | For `scheme://host` where neither part holds `://`, the host is exactly `host`. |
| LoginForm.HandleLogin | client/src/dialogs/login.tsx:72-88 | The token tab sends a token login and any other tab a credentials login. Both go to the host split from the cluster with the fields' values, and the dialog then closes as `handleClose` does. |
| LoginForm.PastedCommandLogsIntoItsHost | client/src/dialogs/login.tsx:146-167 | The paste handler's update for `oc login scheme://host --token=T`, followed by `handleLogin`, sends a token login with `T` to `host`. |
| LoginForm.ValidateUrlOrNull | client/src/dialogs/login.tsx:39-41 | `validateUrl(null)` gives "Invalid Cluster URL", like the empty string. A string gets `validateUrl`'s verdict. |
| LoginForm.ClusterSelectAsWritten | client/src/dialogs/login.tsx:208 | The Autocomplete's change handler stores the option, `null` included, as the cluster's value. Its message is `validateUrl`'s verdict on a real choice and "Invalid Cluster URL" on `null`, and it is in error exactly when there is a message. |
| LoginForm.IsValidAsWritten | client/src/dialogs/login.tsx:55-58 | `isValid` throws exactly when the cluster value is `null`. On a string value, it answers what `isValid` answers for that form. When it answers true, the cluster is non-blank with no message. |
| LoginForm.ClearedClusterCrashesRender | client/src/dialogs/login.tsx:208 | After the Autocomplete is cleared, the next `isValid` throws a `TypeError`. |
| LoginForm.HandleClusterSelect | client/src/dialogs/login.tsx:208 | Corrected handler: a cleared choice leaves an empty cluster with "Invalid Cluster URL". A real choice is an ordinary edit of the cluster. No other field, the open flag or the tab changes. |
| LoginForm.ClusterSelectIsTotal | client/src/dialogs/login.tsx:208 | With the correction, clearing disables Login on any form, and a form whose messages are all current keeps them current. For every real choice, on any form, the corrected handler gives the same Login state as the code as written. |
| StorageState.GetItem | client/src/hooks/useStorageState.ts:12 | `getItem` gives the stored payload when the key is present, and `null` otherwise. |
| StorageState.SetItem | client/src/hooks/useStorageState.ts:26 | `setItem` changes one key of one tier's storage and nothing else. |
| StorageState.GetStorageValue | client/src/hooks/useStorageState.ts:10-17 | An absent key or an empty payload gives the default. A payload that decodes gives its value, and one that does not gives an error naming the key and the payload. |
| StorageState.AbsentKeyGivesDefault | client/src/hooks/useStorageState.ts:10-17 | A key never written reads as the caller's default. |
| StorageState.CorruptPayloadIsAnError | client/src/hooks/useStorageState.ts:14 | A non-empty payload that does not parse is an error, never the default. |
| StorageState.ReadAfterWrite | client/src/hooks/useStorageState.ts:10-27 | A value written back under a key reads as itself, whatever default the reader passes. |
| StorageState.WriteIsLocal | client/src/hooks/useStorageState.ts:26 | A write leaves every other key of its tier and every key of the other tier reading as before. |
| StorageState.TiersAreIndependent | client/src/hooks/useStorageState.ts:33-34 | Write `v1` durably and then `v2` to the session under the same key: the durable read gives `v1`, and the session read gives `v2`. |
| StorageState.UseStorage | client/src/hooks/useStorageState.ts:19-30 | Binding fails exactly when the initial read fails, and then writes nothing. Otherwise the bound value is the read's value and its encoding is stored under the key, with every other key and tier untouched. |
| StorageState.UseLocalState | client/src/hooks/useStorageState.ts:43-45 | A durable binding reads its value from the durable storage and fails exactly when that read fails. It writes the value's encoding back under the key in the durable storage and never touches the session storage. |
| StorageState.UseSessionState | client/src/hooks/useStorageState.ts:55-57 | A session binding reads its value from the session storage and fails exactly when that read fails. It writes the value's encoding back under the key in the session storage and never touches the durable storage. |
| StorageState.BindingAbsentKeyStoresDefault | client/src/hooks/useStorageState.ts:19-27 | Binding a key nobody wrote yields the default and leaves the default's encoding stored under it. |
| StorageState.RebindingIsStable | client/src/hooks/useStorageState.ts:19-27 | Binding the key again after the write-back gives the same value and the same storages. |
| StorageState.SetValue | client/src/hooks/useStorageState.ts:24-29 | The setter makes the new value current and stores its encoding under the key in its own tier. The other tier is unchanged. |
| StorageState.SetThenRebind | client/src/hooks/useStorageState.ts:24-29 | After the setter runs, a new binding of the key reads the value just set. |
| StorageState.ChangeKey | client/src/hooks/useStorageState.ts:24-27 | When the key changes, the value is not read again. The current value is written under the new key, and the other tier is untouched. |
| StorageState.KeyChangeOverwrites | client/src/hooks/useStorageState.ts:20-27 | After a key change, the new key reads as the value carried over, whatever it held before. |
| StringOrder.BelowIrreflexive | client/src/imageSelector.tsx:33 | No name sorts before itself. |
| StringOrder.BelowTransitive | client/src/imageSelector.tsx:33 | The default sort order is transitive. |
| StringOrder.BelowTotal | client/src/imageSelector.tsx:33 | Of two different names, one always sorts first. |
| StringOrder.Insert | client/src/imageSelector.tsx:33 | Inserting a new name into a strictly ascending list gives a strictly ascending list with the same names plus the new one. |
| StringOrder.Sort | client/src/imageSelector.tsx:33 | `sort()` of distinct names is strictly ascending and a permutation of its input. |
| StringOrder.SortedIsUnique | client/src/imageSelector.tsx:33 | Two strictly ascending lists of the same names are equal. |
| StringOrder.SortIgnoresArrivalOrder | client/src/imageSelector.tsx:33 | Sorting any two orderings of the same names gives the same list. |
| ImageSelector.InitialSelector | client/src/imageSelector.tsx:23-27 | The first render is loading with the first load pending, and Deploy is disabled. The empty entry list already describes the empty image map, and the selection is listed (there is none). |
| ImageSelector.LoadImages | client/src/imageSelector.tsx:29-46 | A completed load clears both loading flags and stores the images. It gives one entry per image, each labelled with its name, in strictly ascending order. It keeps the selection, and it raises the toast exactly when this was not the first load. |
| ImageSelector.OptionsDeterminedByImages | client/src/imageSelector.tsx:33-38 | Two entry lists that both describe the same images are equal. |
| ImageSelector.LoadIgnoresListingOrder | client/src/imageSelector.tsx:31-41 | The order in which the host lists the images does not affect the result of a load. |
| ImageSelector.HandleRefresh | client/src/imageSelector.tsx:54-57 | Reload drops the selection and raises `loading`, and keeps the images and entries. |
| ImageSelector.OnLoadingChanged | client/src/imageSelector.tsx:48-52 | The effect loads when `loading` is raised, and otherwise changes nothing and raises no toast. |
| ImageSelector.FirstLoadThenReload | client/src/imageSelector.tsx:29-57 | The first load is silent and a reload raises the toast. Both leave entries for exactly the loaded images and nothing selected. |
| ImageSelector.HandleSelection | client/src/imageSelector.tsx:65-74 | Choosing an entry whose value is a non-empty listed name selects that image with its record. Nothing else ever changes the selection, and nothing else in the state changes. |
| ImageSelector.SelectionStaysListed | client/src/imageSelector.tsx:65-74 | Choosing and reloading keep the selection pointing at a listed image with that image's record. |
| ImageSelector.ClearingKeepsSelection | client/src/imageSelector.tsx:65-68 | Clearing the drop-down leaves the state as it was, so Deploy still deploys the earlier choice. |
| ImageSelector.Deploy | client/src/imageSelector.tsx:59-63 | The callback is called at most once. It is called exactly when there is a selection and a callback, and it receives the selection. |
| ImageSelector.ReloadDisabled | client/src/imageSelector.tsx:113 | `disabled={loading}`: Reload is disabled exactly when the effect on `loading` would run a load, whatever images the host answers with. |
| ImageSelector.DeployDisabled | client/src/imageSelector.tsx:120 | `disabled={!selectedImage}`: Deploy is disabled exactly when no press can reach the deploy callback, whether one was given or not. |
| ImageSelector.DeployButtonMatchesDeploy | client/src/imageSelector.tsx:120 | Deploy is enabled exactly when pressing it reaches the callback. |
| ImageSelector.ReloadCycleButtons | client/src/imageSelector.tsx:113 | After Reload, both buttons are disabled until the load completes, which re-enables Reload. |
| ImageSelector.DisplayedValue | client/src/imageSelector.tsx:86 | The displayed value holds exactly the entries whose value is the selected name. |
| ImageSelector.DisplayedAlone | client/src/imageSelector.tsx:86 | With strictly ascending entries, the entry carrying a name is displayed alone. |
| ImageSelector.DisplayedAtMostOne | client/src/imageSelector.tsx:86 | Because the entries' values ascend strictly, the filter keeps at most one entry, whatever the name. |
| ImageSelector.DisplayShowsSelection | client/src/imageSelector.tsx:86 | With consistent state, the drop-down shows nothing when nothing is selected, and exactly the selected image's entry otherwise. |
| ImageSelector.StaleSelectionSurvivesLoad | client/src/imageSelector.tsx:39-41 | Suppose an image was chosen while a load was pending and the new list no longer holds it. After the load the drop-down shows nothing, yet Deploy deploys the vanished image. |

## Findings

| source | as written | input that shows it | evidently intended | confidence | as-written member | corrected member |
|---|---|---|---|---|---|---|
| client/src/dialogs/login.tsx:208 | The cluster Autocomplete's change handler stores the chosen option as the cluster's value. When the field is cleared that option is `null`, and `isValid` (line 56) then calls `cluster.value.trim()` while rendering the Login button. | Choose a server in the cluster field, then press the field's clear button. | A cleared cluster counts as empty: "Invalid Cluster URL" is shown and Login is disabled. | medium, not executed | LoginForm.ClearedClusterCrashesRender | LoginForm.ClusterSelectIsTotal |

## Left out

- Rendering, theming, the tab panels and `ContextCard.tsx` are out of scope: they compute no state.
- Characters are Unicode scalar values. JavaScript compares UTF-16 code units, so sorting names with characters outside the Basic Multilingual Plane can differ.
- `validator.isURL` is not part of this model. It is the parameter `isUrl`, and only its verdict matters.
- JSON is the `Codec` parameter. `ValidCodec` assumes only that a serialised value is non-empty and parses back to itself. `JSON.parse(saved) as T` performs no type check, and a payload of the wrong shape is not modelled.
- Storage write failures (quota exceeded, storage disabled), and changes made by other windows, belong to the host and are not modelled.
- React's scheduling is modelled as one handler at a time on the state of the render it was created in. Batching, stale closures across renders and re-renders are not modelled.
- HandleOpen: the list of known servers it loads from the CLI (`loadServerUrls`) and the Autocomplete's options are not modelled, since they feed only suggestions.
- LoginForm.HandleClusterPaste: only the handler's own state update is modelled, not what a paste does in the live dialog. Three things are left out. First, the browser's default insertion of the pasted text, which still happens because `event.preventDefault()` is commented out (login.tsx:165); the field's own change handler (login.tsx:225) then stores and re-validates that raw text as the cluster. Second, the failure of `setCluster` when the handler is called from the Autocomplete's text field, which the comments at login.tsx:152 and login.tsx:224 record. Third, the standalone cluster field where pasting works, which is commented out (login.tsx:193-202). `PasteCanEnableRejectedUrl` and `PastedCommandLogsIntoItsHost` are therefore statements about the handler's update, not about a paste in the running dialog.
- HandleLogin: the returned request stands for the `login` / `loginWithToken` calls. The promise, its toasts and `props.onLogin` are left out as asynchronous I/O.
- LoadImages: `getLocalImages` is asynchronous I/O. A load receives its result directly, and a failing listing is not modelled.
- ImageSelector.HandleSelection: `images.get` returns an image record, and every record is assumed truthy. The `console.log` line is left out.
- The toasts themselves are reduced to a flag on a load's result.
