/** The state of the "Login to OpenShift" dialog (client/src/dialogs/login.tsx):
    four text fields, the open flag and the selected authentication tab, with
    the field validators, the `isValid` gate of the Login button, and the
    change, paste, open, close and login handlers as pure state updates.

    `validator.isURL` belongs to a foreign library; it is the parameter `isUrl`. */
module LoginForm {
  import opened Wrappers
  import opened Text
  import opened LoginCommand

  /** One text field: what it holds, the message shown under it, and whether
      it is drawn in error. */
  datatype FieldState = FieldState(value: string, helperText: string, error: bool)

  /** `DEFAULT_STATUS`: an empty field with no message and no error. */
  const DefaultStatus: FieldState := FieldState("", "", false)

  /** Tab indexes of the two authentication methods. */
  const CredentialsTab: int := 0
  const TokenTab: int := 1

  const InvalidClusterUrl: string := "Invalid Cluster URL"
  const UsernameIsEmpty: string := "Username is empty"
  const PasswordIsEmpty: string := "Password is empty"
  const TokenIsEmpty: string := "Bearer token is empty"

  /** The four text fields of the dialog. */
  datatype Field = Cluster | Username | Password | Token

  /** The dialog's React state. The Autocomplete's list of known servers is
      filled by a CLI call and is not modelled. The tab is a plain number, as
      the tab-change handler receives it. */
  datatype Form = Form(
    open: bool,
    cluster: FieldState,
    username: FieldState,
    password: FieldState,
    token: FieldState,
    tab: int)

  /** The state of a freshly mounted dialog. */
  const InitialForm: Form :=
    Form(false, DefaultStatus, DefaultStatus, DefaultStatus, DefaultStatus, CredentialsTab)

  function FieldOf(form: Form, f: Field): FieldState {
    match f
    case Cluster => form.cluster
    case Username => form.username
    case Password => form.password
    case Token => form.token
  }

  /** The dialog starts closed on the credentials tab, with every field as a
      close leaves it, so the Login button starts disabled. */
  lemma InitialFormIsReset()
    ensures !InitialForm.open && InitialForm.tab == CredentialsTab
    ensures forall f :: FieldOf(InitialForm, f) == DefaultStatus
    ensures HandleClose(InitialForm) == InitialForm
    ensures !IsValid(InitialForm)
  {
  }

  /** The setter of field `f`: that field becomes `st` and nothing else changes. */
  function WithField(form: Form, f: Field, st: FieldState): (r: Form)
    ensures FieldOf(r, f) == st
    ensures forall g :: g != f ==> FieldOf(r, g) == FieldOf(form, g)
    ensures r.open == form.open && r.tab == form.tab
  {
    match f
    case Cluster => form.(cluster := st)
    case Username => form.(username := st)
    case Password => form.(password := st)
    case Token => form.(token := st)
  }

  /** `validateUrl`: the message for the cluster field. Only a non-empty value
      whose trimmed text `isUrl` accepts gets no message. */
  function ValidateUrl(isUrl: string -> bool, value: string): (r: string)
    ensures r == "" || r == InvalidClusterUrl
    ensures r == "" <==> value != "" && isUrl(Trim(value))
    ensures value == "" ==> r == InvalidClusterUrl
  {
    if value != "" && isUrl(Trim(value)) then "" else InvalidClusterUrl
  }

  /** The shape shared by `validateUsername`, `validatePassword` and
      `validateToken`: no message exactly when the value holds a character
      that is not whitespace, and `message` otherwise. */
  function ValidateNonBlank(value: string, message: string): (r: string)
    ensures r == "" <==> !Blank(value) || message == ""
    ensures r != "" ==> r == message
  {
    if |Trim(value)| > 0 then "" else message
  }

  function ValidateUsername(value: string): string {
    ValidateNonBlank(value, UsernameIsEmpty)
  }

  function ValidatePassword(value: string): string {
    ValidateNonBlank(value, PasswordIsEmpty)
  }

  function ValidateToken(value: string): string {
    ValidateNonBlank(value, TokenIsEmpty)
  }

  /** The validator each input is bound to in the dialog's markup. */
  function ValidatorFor(isUrl: string -> bool, f: Field): string -> string {
    match f
    case Cluster => v => ValidateUrl(isUrl, v)
    case Username => ValidateUsername
    case Password => ValidatePassword
    case Token => ValidateToken
  }

  /** The three non-blank validators accept exactly the values that are not
      blank, and otherwise return their own fixed message. */
  lemma NonBlankValidators(value: string)
    ensures ValidateUsername(value) == "" <==> !Blank(value)
    ensures ValidatePassword(value) == "" <==> !Blank(value)
    ensures ValidateToken(value) == "" <==> !Blank(value)
    ensures Blank(value) ==> ValidateUsername(value) == UsernameIsEmpty
    ensures Blank(value) ==> ValidatePassword(value) == PasswordIsEmpty
    ensures Blank(value) ==> ValidateToken(value) == TokenIsEmpty
  {
  }

  /** A field as `handleOnChange` leaves it: its message is what its validator
      says of its value, and it is in error exactly when there is a message. */
  predicate Consistent(st: FieldState, validate: string -> string) {
    st.helperText == validate(st.value) && st.error == (|st.helperText| > 0)
  }

  /** `handleOnChange`: field `f` takes the new value verbatim, the validator's
      message, and an error flag that is set exactly when the message is
      non-empty; every other field, the open flag and the tab are unchanged. */
  function HandleOnChange(form: Form, f: Field, validate: string -> string, value: string): (r: Form)
    ensures Consistent(FieldOf(r, f), validate) && FieldOf(r, f).value == value
    ensures forall g :: g != f ==> FieldOf(r, g) == FieldOf(form, g)
    ensures r.open == form.open && r.tab == form.tab
  {
    var helperText := validate(value);
    WithField(form, f, FieldState(value, helperText, |helperText| > 0))
  }

  /** A keystroke in input `f`, through the validator that input is bound to. */
  function Edit(isUrl: string -> bool, form: Form, f: Field, value: string): (r: Form)
    ensures FieldOf(r, f).value == value
    ensures f == Cluster ==> r.cluster.helperText == ValidateUrl(isUrl, value)
    ensures f == Username ==> r.username.helperText == ValidateUsername(value)
    ensures f == Password ==> r.password.helperText == ValidatePassword(value)
    ensures f == Token ==> r.token.helperText == ValidateToken(value)
    ensures FieldOf(r, f).error <==> FieldOf(r, f).helperText != ""
    ensures forall g :: g != f ==> FieldOf(r, g) == FieldOf(form, g)
    ensures r.open == form.open && r.tab == form.tab
  {
    HandleOnChange(form, f, ValidatorFor(isUrl, f), value)
  }

  /** `isValid`, the gate of the Login button: the cluster value is not blank and
      has no message, and either the credentials tab is shown with no message
      on username and password, or the token tab with no message on the token. */
  function IsValid(form: Form): (r: bool)
    ensures r ==> !Blank(form.cluster.value) && form.cluster.helperText == ""
    ensures r ==> form.tab == CredentialsTab || form.tab == TokenTab
    ensures form.tab == CredentialsTab ==>
              (r <==> !Blank(form.cluster.value) && form.cluster.helperText == ""
                      && form.username.helperText == "" && form.password.helperText == "")
    ensures form.tab == TokenTab ==>
              (r <==> !Blank(form.cluster.value) && form.cluster.helperText == ""
                      && form.token.helperText == "")
  {
    && |Trim(form.cluster.value)| > 0
    && form.cluster.helperText == ""
    && (|| (form.tab == CredentialsTab && form.username.helperText == "" && form.password.helperText == "")
        || (form.tab == TokenTab && form.token.helperText == ""))
  }

  /** Every field carries the message its own validator gives for its value. */
  predicate AllConsistent(isUrl: string -> bool, form: Form) {
    forall f :: Consistent(FieldOf(form, f), ValidatorFor(isUrl, f))
  }

  /** The fields `isValid` reads on the shown tab carry the messages their
      validators give; the hidden tab's fields may hold anything. */
  predicate ShownConsistent(isUrl: string -> bool, form: Form) {
    && Consistent(form.cluster, ValidatorFor(isUrl, Cluster))
    && (form.tab == CredentialsTab ==>
          Consistent(form.username, ValidateUsername) && Consistent(form.password, ValidatePassword))
    && (form.tab == TokenTab ==> Consistent(form.token, ValidateToken))
  }

  /** When the shown fields' messages are current, the Login button is enabled
      exactly when the cluster is a non-blank URL and the shown tab's fields are
      all filled in. */
  lemma ValidMeansFilledIn(isUrl: string -> bool, form: Form)
    requires ShownConsistent(isUrl, form)
    ensures form.tab == CredentialsTab ==>
              (IsValid(form) <==> && !Blank(form.cluster.value) && isUrl(Trim(form.cluster.value))
                                  && !Blank(form.username.value) && !Blank(form.password.value))
    ensures form.tab == TokenTab ==>
              (IsValid(form) <==> && !Blank(form.cluster.value) && isUrl(Trim(form.cluster.value))
                                  && !Blank(form.token.value))
  {
    NonBlankValidators(form.username.value);
    NonBlankValidators(form.password.value);
    NonBlankValidators(form.token.value);
  }

  /** Editing a field keeps every field's message current. */
  lemma EditKeepsConsistent(isUrl: string -> bool, form: Form, f: Field, value: string)
    requires AllConsistent(isUrl, form)
    ensures AllConsistent(isUrl, Edit(isUrl, form, f, value))
  {
    var r := Edit(isUrl, form, f, value);
    forall g ensures Consistent(FieldOf(r, g), ValidatorFor(isUrl, g)) {
      if g != f {
        assert Consistent(FieldOf(form, g), ValidatorFor(isUrl, g));
      }
    }
  }

  /** The usual credentials login: the dialog is reset and opened, and the cluster,
      username and password are typed in while the token is never touched. Login
      is then enabled exactly when the URL is accepted and both credentials are
      filled in. */
  lemma TypedCredentialsEnableLogin(isUrl: string -> bool, form: Form, url: string, user: string, pass: string)
    requires form.tab == CredentialsTab
    ensures var typed := Edit(isUrl, Edit(isUrl, Edit(isUrl, HandleOpen(HandleClose(form)), Cluster, url), Username, user), Password, pass);
            && typed.open
            && (IsValid(typed) <==> !Blank(url) && isUrl(Trim(url)) && !Blank(user) && !Blank(pass))
  {
    var typed := Edit(isUrl, Edit(isUrl, Edit(isUrl, HandleOpen(HandleClose(form)), Cluster, url), Username, user), Password, pass);
    assert ShownConsistent(isUrl, typed);
    ValidMeansFilledIn(isUrl, typed);
  }

  /** On the token tab, the username and password play no part in `isValid`;
      on the credentials tab, the token plays none. */
  lemma IsValidIgnoresOtherTab(form: Form, st: FieldState)
    ensures form.tab == TokenTab ==>
              IsValid(form.(username := st)) == IsValid(form) == IsValid(form.(password := st))
    ensures form.tab == CredentialsTab ==> IsValid(form.(token := st)) == IsValid(form)
  {
  }

  /** `handleOpen`, less the CLI call that fills the server list. */
  function HandleOpen(form: Form): (r: Form)
    ensures r.open
    ensures forall f :: FieldOf(r, f) == FieldOf(form, f)
    ensures r.tab == form.tab
  {
    form.(open := true)
  }

  /** `handleTabChange`. */
  function HandleTabChange(form: Form, tab: int): (r: Form)
    ensures r.tab == tab && r.open == form.open
    ensures forall f :: FieldOf(r, f) == FieldOf(form, f)
  {
    form.(tab := tab)
  }

  /** `handleClose`: the dialog closes and all four fields return to
      `DEFAULT_STATUS`; the tab stays as it was. */
  function HandleClose(form: Form): (r: Form)
    ensures !r.open && r.tab == form.tab
    ensures forall f :: FieldOf(r, f) == FieldState("", "", false)
  {
    form.(open := false, cluster := DefaultStatus, username := DefaultStatus,
          password := DefaultStatus, token := DefaultStatus)
  }

  /** After a close the Login button is disabled, whatever the form held. */
  lemma ClosedFormIsInvalid(form: Form)
    ensures !IsValid(HandleClose(form))
  {
    assert HandleClose(form).cluster.value == "";
  }

  /** Closing is idempotent, and opening then closing is just closing. */
  lemma CloseIsIdempotent(form: Form)
    ensures HandleClose(HandleClose(form)) == HandleClose(form)
    ensures HandleClose(HandleOpen(form)) == HandleClose(form)
  {
  }

  /** A reset field's message is empty, so in a reset and reopened dialog on the
      credentials tab the Login button is enabled as soon as a URL is typed in, with username and
      password still empty (the source notes this as an open question). */
  lemma CredentialsNeedNoEdit(isUrl: string -> bool, form: Form, url: string)
    requires form.tab == CredentialsTab
    requires !Blank(url) && isUrl(Trim(url))
    ensures var r := Edit(isUrl, HandleOpen(HandleClose(form)), Cluster, url);
            r.open && IsValid(r) && r.username.value == "" && r.password.value == ""
  {
  }

  /** `handleClusterPaste`: when the pasted text holds a login command, the
      cluster and token values become its groups, each keeping its previous
      message but with its error flag recomputed by its validator, and the
      token tab is selected; otherwise nothing changes. */
  function HandleClusterPaste(isUrl: string -> bool, form: Form, content: string): (r: Form)
    ensures ParseOcLoginCommand(content).None? ==> r == form
    ensures ParseOcLoginCommand(content).Some? ==>
              var cmd := ParseOcLoginCommand(content).value;
              && r.cluster == FieldState(cmd.cluster, form.cluster.helperText, ValidateUrl(isUrl, cmd.cluster) != "")
              && r.token == FieldState(cmd.token, form.token.helperText, Blank(cmd.token))
              && r.tab == TokenTab
              && r.open == form.open && r.username == form.username && r.password == form.password
  {
    match ParseOcLoginCommand(content)
    case None => form
    case Some(cmd) =>
      form.(
        cluster := FieldState(cmd.cluster, form.cluster.helperText, |ValidateUrl(isUrl, cmd.cluster)| > 0),
        token := FieldState(cmd.token, form.token.helperText, |ValidateToken(cmd.token)| > 0),
        tab := TokenTab)
  }

  /** Pasting the same text twice is the same as pasting it once. */
  lemma PasteIsIdempotent(isUrl: string -> bool, form: Form, content: string)
    ensures HandleClusterPaste(isUrl, HandleClusterPaste(isUrl, form, content), content)
         == HandleClusterPaste(isUrl, form, content)
  {
  }

  /** Because the paste handler keeps the old message, its update of a reset
      and reopened dialog for a command whose cluster `isUrl` rejects marks the
      cluster in error and still enables the Login button. */
  lemma PasteCanEnableRejectedUrl(isUrl: string -> bool, form: Form, cmd: OcLoginCommand)
    requires SingleLine(cmd.cluster) && SingleLine(cmd.token) && !Contains(cmd.token, Marker)
    requires !Blank(cmd.cluster) && !isUrl(Trim(cmd.cluster))
    ensures var r := HandleClusterPaste(isUrl, HandleOpen(HandleClose(form)), Render(cmd));
            r.open && r.cluster.error && r.cluster.helperText == "" && IsValid(r)
  {
    ParseRenderRoundTrip(cmd);
  }

  /** The separator `handleLogin` splits the cluster URL on. */
  const SchemeSeparator: string := "://"

  /** `host` is the second piece of `url.split('://')`: the first separator starts
      at `p`, and `host` runs from the end of that separator up to the next
      separator, or up to the end of `url` when there is none. */
  ghost predicate SecondPieceAt(url: string, p: nat, host: string) {
    var from := p + |SchemeSeparator|;
    && OccursAt(url, p, SchemeSeparator)
    && (forall k :: 0 <= k < p ==> !OccursAt(url, k, SchemeSeparator))
    && from + |host| <= |url| && url[from..from + |host|] == host
    && (forall k :: from <= k < from + |host| ==> !OccursAt(url, k, SchemeSeparator))
    && (from + |host| == |url| || OccursAt(url, from + |host|, SchemeSeparator))
  }

  /** The second piece is determined by the URL: the first separator and the one
      after it fix where it starts and ends. */
  lemma SecondPieceUnique(url: string, p1: nat, host1: string, p2: nat, host2: string)
    requires SecondPieceAt(url, p1, host1) && SecondPieceAt(url, p2, host2)
    ensures p1 == p2 && host1 == host2
  {
    assert p1 == p2;
  }

  /** `cluster.value.split('://')[1]`: the text between the first separator and
      the next one (or the end), and `None` (the source's `undefined`) when the
      value holds no separator. */
  function HostOf(url: string): (r: Option<string>)
    ensures r.None? <==> !Contains(url, SchemeSeparator)
    ensures r.Some? ==> !Contains(r.value, SchemeSeparator)
    ensures r.Some? ==> exists p: nat :: SecondPieceAt(url, p, r.value)
  {
    match IndexOf(url, SchemeSeparator, 0)
    case None => None
    case Some(p) =>
      var from := p + |SchemeSeparator|;
      match IndexOf(url, SchemeSeparator, from)
      case None =>
        SeparatorFreeTail(url, from, |url|);
        assert url[from..] == url[from..|url|];
        assert SecondPieceAt(url, p, url[from..]);
        Some(url[from..])
      case Some(q) =>
        SeparatorFreeTail(url, from, q);
        assert SecondPieceAt(url, p, url[from..q]);
        Some(url[from..q])
  }

  /** A slice that no occurrence starts in holds no separator. */
  lemma SeparatorFreeTail(url: string, from: nat, to: nat)
    requires from <= to <= |url|
    requires forall k :: from <= k && k + |SchemeSeparator| <= to ==> !OccursAt(url, k, SchemeSeparator)
    ensures !Contains(url[from..to], SchemeSeparator)
  {
    forall i | 0 <= i <= |url[from..to]| - |SchemeSeparator|
      ensures !OccursAt(url[from..to], i, SchemeSeparator)
    {
      if OccursAt(url[from..to], i, SchemeSeparator) {
        OccursInSlice(url, from, to, i, SchemeSeparator);
      }
    }
  }

  /** No separator starts inside a scheme that holds none, even one that runs
      into the separator after it. */
  lemma NoSeparatorInScheme(scheme: string, host: string, k: nat)
    requires !Contains(scheme, SchemeSeparator) && k < |scheme|
    ensures !OccursAt(scheme + SchemeSeparator + host, k, SchemeSeparator)
  {
    var url := scheme + SchemeSeparator + host;
    var p := |scheme|;
    if k + |SchemeSeparator| <= p {
      assert scheme == url[..|scheme|];
      OccursInPrefix(scheme, url, k, SchemeSeparator);
    } else {
      assert url[k + (p - k)] == ':' != SchemeSeparator[p - k];
    }
  }

  /** In `scheme + "://" + host`, the first separator is the one after the scheme. */
  lemma FirstSeparatorEndsScheme(scheme: string, host: string)
    requires !Contains(scheme, SchemeSeparator)
    ensures IndexOf(scheme + SchemeSeparator + host, SchemeSeparator, 0) == Some(|scheme|)
  {
    var url := scheme + SchemeSeparator + host;
    var p := |scheme|;
    forall k | 0 <= k < p ensures !OccursAt(url, k, SchemeSeparator) {
      NoSeparatorInScheme(scheme, host, k);
    }
    forall m | 0 <= m < |SchemeSeparator| ensures url[p + m] == SchemeSeparator[m] {
    }
    IndexOfFindsFirst(url, SchemeSeparator, 0, p);
  }

  /** In `scheme + "://" + host`, no separator starts after the first one. */
  lemma NoSeparatorInHost(scheme: string, host: string)
    requires !Contains(host, SchemeSeparator)
    ensures IndexOf(scheme + SchemeSeparator + host, SchemeSeparator, |scheme| + |SchemeSeparator|).None?
  {
    var head := scheme + SchemeSeparator;
    var url := head + host;
    forall k | |head| <= k ensures !OccursAt(url, k, SchemeSeparator) {
      NoOccurrenceInSuffix(head, host, k, SchemeSeparator);
    }
  }

  /** A URL made of a scheme and a host, neither holding the separator, splits
      back into that host. */
  lemma HostOfUrl(scheme: string, host: string)
    requires !Contains(scheme, SchemeSeparator) && !Contains(host, SchemeSeparator)
    ensures HostOf(scheme + SchemeSeparator + host) == Some(host)
  {
    FirstSeparatorEndsScheme(scheme, host);
    NoSeparatorInHost(scheme, host);
    var url := scheme + SchemeSeparator + host;
    assert url[|scheme| + |SchemeSeparator|..] == host;
  }

  /** What `handleLogin` hands to the CLI: a token login on the token tab, a
      credentials login on any other tab, each with the host split off the
      cluster URL. */
  datatype LoginRequest =
    | TokenLogin(host: Option<string>, token: string)
    | CredentialsLogin(host: Option<string>, username: string, password: string)

  /** `handleLogin`: the request issued, and the dialog closed and reset. The
      outcome of the request (a toast and the `onLogin` callback) happens later
      and outside this state. */
  function HandleLogin(form: Form): (r: (LoginRequest, Form))
    ensures r.0.host == HostOf(form.cluster.value)
    ensures r.0.TokenLogin? <==> form.tab == TokenTab
    ensures r.0.TokenLogin? ==> r.0.token == form.token.value
    ensures r.0.CredentialsLogin? ==> r.0.username == form.username.value && r.0.password == form.password.value
    ensures r.1 == HandleClose(form)
  {
    var host := HostOf(form.cluster.value);
    var request :=
      if form.tab == TokenTab then TokenLogin(host, form.token.value)
      else CredentialsLogin(host, form.username.value, form.password.value);
    (request, HandleClose(form))
  }

  /** Logging in with a pasted command sends the command's token to the host
      named in its cluster URL. */
  lemma PastedCommandLogsIntoItsHost(isUrl: string -> bool, form: Form, scheme: string, host: string, token: string)
    requires !Contains(scheme, SchemeSeparator) && !Contains(host, SchemeSeparator)
    requires SingleLine(scheme + SchemeSeparator + host) && SingleLine(token) && !Contains(token, Marker)
    ensures var cmd := OcLoginCommand(scheme + SchemeSeparator + host, token);
            HandleLogin(HandleClusterPaste(isUrl, form, Render(cmd))).0 == TokenLogin(Some(host), token)
  {
    ParseRenderRoundTrip(OcLoginCommand(scheme + SchemeSeparator + host, token));
    HostOfUrl(scheme, host);
  }

  /** The cluster field as the Autocomplete's own change handler leaves it. That
      handler forwards the chosen option as the new value, and the option is
      `null` once the clear button is pressed; `None` stands for that `null`. */
  datatype NullableField = NullableField(value: Option<string>, helperText: string, error: bool)

  /** A `TypeError` thrown while the dialog renders. */
  datatype RenderError = TypeError

  /** `validateUrl` given a value that may be `null`: `null` is falsy, so it
      gets the message, just as the empty string does. */
  function ValidateUrlOrNull(isUrl: string -> bool, value: Option<string>): (r: string)
    ensures value.None? ==> r == InvalidClusterUrl
    ensures value.Some? ==> r == ValidateUrl(isUrl, value.value)
  {
    match value
    case None => InvalidClusterUrl
    case Some(v) => ValidateUrl(isUrl, v)
  }

  /** Choosing (or clearing) in the Autocomplete, as written: the option itself,
      `null` included, becomes the cluster's value. */
  function ClusterSelectAsWritten(isUrl: string -> bool, selected: Option<string>): (r: NullableField)
    ensures r.value == selected
    ensures r.helperText == ValidateUrlOrNull(isUrl, selected)
    ensures r.helperText == "" || r.helperText == InvalidClusterUrl
    ensures r.error <==> r.helperText != ""
    ensures selected.None? ==> r.error
  {
    var helperText := ValidateUrlOrNull(isUrl, selected);
    NullableField(selected, helperText, |helperText| > 0)
  }

  /** `isValid` as written, over a cluster field that may hold `null`: its first
      step, `cluster.value.trim()`, throws on `null`; on a string it is `IsValid`. */
  function IsValidAsWritten(form: Form, cluster: NullableField): (r: Result<bool, RenderError>)
    ensures r.Failure? <==> cluster.value.None?
    ensures r.Success? && r.value ==> !Blank(cluster.value.value) && cluster.helperText == ""
    ensures cluster.value.Some? ==>
              r == Success(IsValid(form.(cluster := FieldState(cluster.value.value, cluster.helperText, cluster.error))))
  {
    match cluster.value
    case None => Failure(TypeError)
    case Some(v) => Success(IsValid(form.(cluster := FieldState(v, cluster.helperText, cluster.error))))
  }

  /** Clearing the cluster Autocomplete stores `null`, and the next render's
      `isValid` throws instead of disabling the Login button. */
  lemma ClearedClusterCrashesRender(isUrl: string -> bool, form: Form)
    ensures ClusterSelectAsWritten(isUrl, None).value == None
    ensures IsValidAsWritten(form, ClusterSelectAsWritten(isUrl, None)) == Failure(TypeError)
  {
  }

  /** Choosing in the Autocomplete with a cleared choice read as the empty string:
      the cluster is edited exactly as a keystroke would edit it, so clearing
      leaves an empty, rejected cluster. */
  function HandleClusterSelect(isUrl: string -> bool, form: Form, selected: Option<string>): (r: Form)
    ensures selected.None? ==> r.cluster == FieldState("", InvalidClusterUrl, true)
    ensures selected.Some? ==> r == Edit(isUrl, form, Cluster, selected.value)
    ensures forall g :: g != Cluster ==> FieldOf(r, g) == FieldOf(form, g)
    ensures r.open == form.open && r.tab == form.tab
  {
    Edit(isUrl, form, Cluster, selected.GetOr(""))
  }

  /** With the correction, clearing the cluster disables Login, whatever the
      form held, and keeps current messages current; for any real choice the
      corrected handler agrees with the code as written. */
  lemma ClusterSelectIsTotal(isUrl: string -> bool, form: Form, selected: Option<string>)
    ensures AllConsistent(isUrl, form) ==> AllConsistent(isUrl, HandleClusterSelect(isUrl, form, selected))
    ensures selected.None? ==> !IsValid(HandleClusterSelect(isUrl, form, selected))
    ensures selected.Some? ==>
              IsValidAsWritten(form, ClusterSelectAsWritten(isUrl, selected))
              == Success(IsValid(HandleClusterSelect(isUrl, form, selected)))
  {
    if AllConsistent(isUrl, form) {
      EditKeepsConsistent(isUrl, form, Cluster, selected.GetOr(""));
    }
  }
}
