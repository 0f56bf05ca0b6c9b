/** The image picker of the extension's main panel (client/src/imageSelector.tsx).

    Its state is two loading flags, the local images by name, the options shown
    in the drop-down (one per name, sorted) and the current selection. Listing
    the host's images is asynchronous I/O: here a load is given its result, the
    images by name together with the order the host listed them in. The image
    records themselves are opaque (`I`); the toast a reload raises is an output
    flag and the deploy callback is reported as the list of calls it receives. */
module ImageSelector {
  import opened Wrappers
  import opened StringOrder

  /** One drop-down entry: its `value` and its `label` (here `caption`); this panel
      always labels an entry with its value. */
  datatype ImageOption = ImageOption(value: string, caption: string)

  /** The selection handed to the deploy callback. */
  datatype SelectedImage<I> = SelectedImage(name: string, image: I)

  datatype Selector<I> = Selector(
    initialLoading: bool,
    loading: bool,
    images: map<string, I>,
    options: seq<ImageOption>,
    selected: Option<SelectedImage<I>>)

  /** The first render: both flags raised, nothing listed, nothing selected. */
  function InitialSelector<I>(): (r: Selector<I>)
    ensures r.initialLoading && r.loading && DeployDisabled(r)
    ensures ListsImages(r.options, r.images) && SelectionListed(r)
  {
    Selector(true, true, map[], [], None)
  }

  /** The values of the entries, in order. */
  function Values(options: seq<ImageOption>): (r: seq<string>)
    ensures |r| == |options|
    ensures forall i :: 0 <= i < |r| ==> r[i] == options[i].value
  {
    seq(|options|, i requires 0 <= i < |options| => options[i].value)
  }

  /** The entries of the drop-down describe exactly the images: each is captioned
      with its own value, each value names an image, every image has an entry,
      and the values ascend strictly (so no image is listed twice). */
  ghost predicate ListsImages<I>(options: seq<ImageOption>, images: map<string, I>) {
    && (forall i :: 0 <= i < |options| ==> options[i].caption == options[i].value && options[i].value in images)
    && (forall n :: n in images ==> exists i :: 0 <= i < |options| && options[i].value == n)
    && StrictlySorted(Values(options))
  }

  /** The selection refers to a listed image, with that image's record. */
  ghost predicate SelectionListed<I>(st: Selector<I>) {
    st.selected.Some? ==> st.selected.value.name in st.images && st.images[st.selected.value.name] == st.selected.value.image
  }

  /** `order` lists the keys of `images` as the map lists them: each once. */
  ghost predicate KeyOrder<I>(images: map<string, I>, order: seq<string>) {
    && Distinct(order)
    && forall n :: n in order <==> n in images
  }

  /** One entry per name, in the given order, each captioned with its name. */
  function OptionsOf(names: seq<string>): (r: seq<ImageOption>)
    ensures Values(r) == names
    ensures forall i :: 0 <= i < |r| ==> r[i].caption == r[i].value
  {
    seq(|names|, i requires 0 <= i < |names| => ImageOption(names[i], names[i]))
  }

  /** The result of a completed load and whether it raised the "Reloaded image
      list" toast. */
  datatype Loaded<I> = Loaded(state: Selector<I>, toast: bool)

  /** `loadImages` once the host has answered with `images` (listed in `order`):
      both flags drop, the images and their sorted entries replace the old ones,
      the selection is left as it is, and a toast is raised unless this was the
      first load. */
  function LoadImages<I>(st: Selector<I>, images: map<string, I>, order: seq<string>): (r: Loaded<I>)
    requires KeyOrder(images, order)
    ensures !r.state.loading && !r.state.initialLoading
    ensures r.state.images == images
    ensures ListsImages(r.state.options, images)
    ensures r.state.selected == st.selected
    ensures r.toast <==> !st.initialLoading
  {
    var sorted := Sort(order);
    var options := OptionsOf(sorted);
    assert forall i :: 0 <= i < |options| ==> options[i].value in images by {
      forall i | 0 <= i < |options| ensures options[i].value in images {
        assert options[i].value == sorted[i] && sorted[i] in multiset(order);
      }
    }
    assert forall n :: n in images ==> exists i :: 0 <= i < |options| && options[i].value == n by {
      forall n | n in images ensures exists i :: 0 <= i < |options| && options[i].value == n {
        assert n in multiset(sorted);
        var i :| 0 <= i < |sorted| && sorted[i] == n;
        assert options[i].value == n;
      }
    }
    Loaded(st.(initialLoading := false, loading := false, images := images, options := options), !st.initialLoading)
  }

  /** Entries that describe the same images are the same entries: the drop-down
      does not depend on the order in which the host listed the images. */
  lemma {:induction false} OptionsDeterminedByImages<I>(a: seq<ImageOption>, b: seq<ImageOption>, images: map<string, I>)
    requires ListsImages(a, images) && ListsImages(b, images)
    ensures a == b
  {
    SameNamesSameMultiset(Values(a), Values(b));
    SortedIsUnique(Values(a), Values(b));
    forall i | 0 <= i < |a| ensures a[i] == b[i] {
      assert Values(a)[i] == Values(b)[i];
    }
  }

  /** Two repetition-free sequences holding the same strings hold them equally often. */
  lemma SameNamesSameMultiset(s: seq<string>, t: seq<string>)
    requires StrictlySorted(s) && StrictlySorted(t)
    requires forall x :: x in s <==> x in t
    ensures multiset(s) == multiset(t)
  {
    forall x ensures multiset(s)[x] == multiset(t)[x] {
      SortedMultiplicity(s, x);
      SortedMultiplicity(t, x);
    }
  }

  /** In a strictly sorted sequence every string occurs at most once. */
  lemma {:induction false} SortedMultiplicity(s: seq<string>, x: string)
    requires StrictlySorted(s)
    ensures multiset(s)[x] == if x in s then 1 else 0
    decreases |s|
  {
    if |s| > 0 {
      assert s == [s[0]] + s[1..];
      SortedMultiplicity(s[1..], x);
      if x == s[0] {
        forall j | 0 <= j < |s[1..]| ensures s[1..][j] != x {
          assert Below(s[0], s[j + 1]);
          BelowIrreflexive(x);
        }
      }
    }
  }

  /** Two loads of the same images give the same drop-down, whatever order the
      host listed them in. */
  lemma LoadIgnoresListingOrder<I>(st: Selector<I>, images: map<string, I>, order1: seq<string>, order2: seq<string>)
    requires KeyOrder(images, order1) && KeyOrder(images, order2)
    ensures LoadImages(st, images, order1) == LoadImages(st, images, order2)
  {
    OptionsDeterminedByImages(LoadImages(st, images, order1).state.options,
                              LoadImages(st, images, order2).state.options, images);
  }

  /** `handleRefresh`: the selection is dropped and a load is requested. */
  function HandleRefresh<I>(st: Selector<I>): (r: Selector<I>)
    ensures r.selected.None? && r.loading
    ensures r.initialLoading == st.initialLoading && r.images == st.images && r.options == st.options
  {
    st.(selected := None, loading := true)
  }

  /** The effect on `loading`: a load runs whenever the flag is raised. */
  function OnLoadingChanged<I>(st: Selector<I>, images: map<string, I>, order: seq<string>): (r: Loaded<I>)
    requires KeyOrder(images, order)
    ensures st.loading ==> r == LoadImages(st, images, order)
    ensures !st.loading ==> r == Loaded(st, false)
  {
    if st.loading then LoadImages(st, images, order) else Loaded(st, false)
  }

  /** The first load lists the images silently; a reload after it announces itself,
      and both leave the drop-down describing the images with nothing selected. */
  lemma FirstLoadThenReload<I>(images1: map<string, I>, order1: seq<string>, images2: map<string, I>, order2: seq<string>)
    requires KeyOrder(images1, order1) && KeyOrder(images2, order2)
    ensures var first := OnLoadingChanged(InitialSelector<I>(), images1, order1);
            && !first.toast && first.state.selected.None?
            && ListsImages(first.state.options, images1)
            && var second := OnLoadingChanged(HandleRefresh(first.state), images2, order2);
               && second.toast && second.state.selected.None? && !second.state.loading
               && ListsImages(second.state.options, images2)
  {
  }

  /** `handleSelection`: a picked entry whose value is a non-empty listed name
      selects that image with its record; anything else, including the cleared
      drop-down (`None`), leaves the state as it was. */
  function HandleSelection<I>(st: Selector<I>, option: Option<ImageOption>): (r: Selector<I>)
    ensures r.(selected := st.selected) == st
    ensures r.selected != st.selected ==> option.Some? && option.value.value != "" && option.value.value in st.images
    ensures option.Some? && option.value.value != "" && option.value.value in st.images ==>
              r.selected == Some(SelectedImage(option.value.value, st.images[option.value.value]))
  {
    match option
    case None => st
    case Some(o) =>
      if o.value != "" && o.value in st.images then
        st.(selected := Some(SelectedImage(o.value, st.images[o.value])))
      else st
  }

  /** Selecting keeps the selection pointing at a listed image with its record. */
  lemma SelectionStaysListed<I>(st: Selector<I>, option: Option<ImageOption>)
    requires SelectionListed(st)
    ensures SelectionListed(HandleSelection(st, option))
    ensures SelectionListed(HandleRefresh(st))
  {
  }

  /** Clearing the drop-down does not clear the selection: Deploy stays enabled
      and still deploys the image chosen before. */
  lemma ClearingKeepsSelection<I>(st: Selector<I>)
    ensures HandleSelection(st, None) == st
    ensures st.selected.Some? ==> Deploy(HandleSelection(st, None), true) == [st.selected.value]
  {
  }

  /** `deploy`: the callback receives the selection, once, when there is both a
      selection and a callback, and is not called otherwise. */
  function Deploy<I>(st: Selector<I>, hasCallback: bool): (calls: seq<SelectedImage<I>>)
    ensures |calls| <= 1
    ensures |calls| == 1 <==> st.selected.Some? && hasCallback
    ensures forall c :: c in calls ==> st.selected == Some(c)
  {
    if st.selected.Some? && hasCallback then [st.selected.value] else []
  }

  /** The Reload button is disabled exactly while a load is pending. */
  function ReloadDisabled<I(!new)>(st: Selector<I>): (r: bool)
    ensures r <==> forall images: map<string, I>, order: seq<string> | KeyOrder(images, order) ::
                     OnLoadingChanged(st, images, order) == LoadImages(st, images, order)
  {
    var none: map<string, I> := map[];
    assert KeyOrder(none, []);
    assert !st.loading ==> OnLoadingChanged(st, none, []) != LoadImages(st, none, []);
    st.loading
  }

  /** The Deploy button is disabled exactly when nothing is selected. */
  function DeployDisabled<I>(st: Selector<I>): (r: bool)
    ensures r <==> forall hasCallback: bool :: Deploy(st, hasCallback) == []
  {
    assert st.selected.Some? ==> |Deploy(st, true)| == 1;
    st.selected.None?
  }

  /** An enabled Deploy button is a press that reaches the callback, and a
      disabled one could not. */
  lemma DeployButtonMatchesDeploy<I>(st: Selector<I>)
    ensures !DeployDisabled(st) <==> |Deploy(st, true)| == 1
    ensures DeployDisabled(st) ==> forall cb :: Deploy(st, cb) == []
  {
  }

  /** Pressing Reload disables Reload and Deploy until the load completes, which
      enables Reload again. */
  lemma ReloadCycleButtons<I(!new)>(st: Selector<I>, images: map<string, I>, order: seq<string>)
    requires KeyOrder(images, order)
    ensures ReloadDisabled(HandleRefresh(st)) && DeployDisabled(HandleRefresh(st))
    ensures !ReloadDisabled(OnLoadingChanged(HandleRefresh(st), images, order).state)
  {
  }

  /** The value the drop-down displays: the entries whose value is the selected
      name. */
  function DisplayedValue(options: seq<ImageOption>, name: Option<string>): (r: seq<ImageOption>)
    ensures forall o :: o in r <==> o in options && name == Some(o.value)
    ensures |r| <= |options|
  {
    if |options| == 0 then []
    else (if name == Some(options[0].value) then [options[0]] else []) + DisplayedValue(options[1..], name)
  }

  /** The name of the current selection, `undefined` when there is none. */
  function SelectedName<I>(st: Selector<I>): Option<string> {
    match st.selected
    case Some(s) => Some(s.name)
    case None => None
  }

  /** When no entry carries the name, nothing is displayed. */
  lemma {:induction false} DisplayedNothing(options: seq<ImageOption>, name: Option<string>)
    requires forall i :: 0 <= i < |options| ==> name != Some(options[i].value)
    ensures DisplayedValue(options, name) == []
    decreases |options|
  {
    if |options| > 0 {
      DisplayedNothing(options[1..], name);
    }
  }

  /** With strictly ascending values, the entry carrying the name is displayed alone. */
  lemma {:induction false} DisplayedAlone(options: seq<ImageOption>, i: nat)
    requires StrictlySorted(Values(options)) && i < |options|
    ensures DisplayedValue(options, Some(options[i].value)) == [options[i]]
    decreases |options|
  {
    var n := options[i].value;
    var rest := options[1..];
    assert StrictlySorted(Values(rest)) by {
      forall a, b | 0 <= a < b < |rest| ensures Below(Values(rest)[a], Values(rest)[b]) {
        assert Values(rest)[a] == Values(options)[a + 1] && Values(rest)[b] == Values(options)[b + 1];
      }
    }
    if i == 0 {
      forall k | 0 <= k < |rest| ensures Some(n) != Some(rest[k].value) {
        assert Below(Values(options)[0], Values(options)[k + 1]);
        BelowIrreflexive(n);
      }
      DisplayedNothing(rest, Some(n));
    } else {
      assert Below(Values(options)[0], Values(options)[i]);
      BelowIrreflexive(n);
      assert rest[i - 1] == options[i];
      DisplayedAlone(rest, i - 1);
    }
  }

  /** With strictly ascending values, whatever the name, at most one entry is
      displayed. */
  lemma DisplayedAtMostOne(options: seq<ImageOption>, name: Option<string>)
    requires StrictlySorted(Values(options))
    ensures |DisplayedValue(options, name)| <= 1
  {
    if i :| 0 <= i < |options| && name == Some(options[i].value) {
      DisplayedAlone(options, i);
    } else {
      DisplayedNothing(options, name);
    }
  }

  /** The drop-down shows the selected image's entry, and only it, whenever the
      selection is listed; it shows nothing when nothing is selected. */
  lemma DisplayShowsSelection<I>(st: Selector<I>)
    requires ListsImages(st.options, st.images) && SelectionListed(st)
    ensures st.selected.None? ==> DisplayedValue(st.options, SelectedName(st)) == []
    ensures st.selected.Some? ==>
              DisplayedValue(st.options, SelectedName(st)) == [ImageOption(st.selected.value.name, st.selected.value.name)]
  {
    if st.selected.Some? {
      var n := st.selected.value.name;
      var i :| 0 <= i < |st.options| && st.options[i].value == n;
      DisplayedAlone(st.options, i);
    } else {
      DisplayedNothing(st.options, None);
    }
  }

  /** A selection made while a load is pending survives the load even when the new
      list no longer holds it: the drop-down then shows nothing, yet Deploy is
      enabled and deploys the image that vanished. */
  lemma StaleSelectionSurvivesLoad<I>(st: Selector<I>, images: map<string, I>, order: seq<string>)
    requires KeyOrder(images, order)
    requires st.selected.Some? && st.selected.value.name !in images
    ensures var after := LoadImages(st, images, order).state;
            && DisplayedValue(after.options, SelectedName(after)) == []
            && Deploy(after, true) == [st.selected.value]
  {
    var after := LoadImages(st, images, order).state;
    forall i | 0 <= i < |after.options| ensures SelectedName(after) != Some(after.options[i].value) {
      assert after.options[i].value in images;
    }
    DisplayedNothing(after.options, SelectedName(after));
  }
}
