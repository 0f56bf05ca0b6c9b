/** Recognising a pasted `oc login <cluster> --token=<token>` command
    (client/src/dialogs/login.tsx, `parseOcLoginCommand`).

    The source applies the regular expression
    `oc login (?<cluster>.*) --token=(?<token>.*)` without flags. The model states
    that pattern's meaning directly rather than through a regex engine:
    `MatchAt` says which spans of the text the pattern matches, and
    `IsReportedMatch` says which of them a backtracking engine reports (leftmost
    start, then the longest cluster, then the longest token). The scanning
    implementation `ParseOcLoginCommand` is proved to return exactly that match. */
module LoginCommand {
  import opened Wrappers
  import opened Text

  /** The literal that opens the pattern. */
  const Prefix: string := "oc login "

  /** The literal that separates the cluster group from the token group. */
  const Marker: string := " --token="

  /** The two named groups of a successful match, verbatim. */
  datatype OcLoginCommand = OcLoginCommand(cluster: string, token: string)

  /** Positions of one match: `Prefix` at `start`, `Marker` at `marker`, and the
      match ending (exclusively) at `end`. */
  datatype Span = Span(start: nat, marker: nat, end: nat)

  /** The pattern matches `s[sp.start..sp.end]` with the marker at `sp.marker`:
      each `.*` group (the cluster between the two literals, the token after the
      marker) is a run of characters that are not line terminators. */
  predicate MatchAt(s: string, sp: Span) {
    && sp.start + |Prefix| <= sp.marker
    && sp.marker + |Marker| <= sp.end <= |s|
    && OccursAt(s, sp.start, Prefix)
    && OccursAt(s, sp.marker, Marker)
    && LineFree(s, sp.start + |Prefix|, sp.marker)
    && LineFree(s, sp.marker + |Marker|, sp.end)
  }

  /** Some line of `s` holds `Prefix` followed later on the same line by `Marker`. */
  ghost predicate HasMatch(s: string) {
    exists sp :: MatchAt(s, sp)
  }

  /** The match `String.prototype.match` reports for a non-global pattern: the
      leftmost start; among matches there, the longest cluster (greedy `.*`);
      and then the longest token. */
  ghost predicate IsReportedMatch(s: string, sp: Span) {
    && MatchAt(s, sp)
    && (forall o :: MatchAt(s, o) ==> sp.start <= o.start)
    && (forall o :: MatchAt(s, o) && o.start == sp.start ==> o.marker <= sp.marker)
    && (forall o :: MatchAt(s, o) && o.start == sp.start && o.marker == sp.marker ==> o.end <= sp.end)
  }

  /** The named groups of a match, taken verbatim from the text. */
  function Groups(s: string, sp: Span): OcLoginCommand
    requires MatchAt(s, sp)
  {
    OcLoginCommand(s[sp.start + |Prefix|..sp.marker], s[sp.marker + |Marker|..sp.end])
  }

  /** The command line that carries `cmd`. */
  function Render(cmd: OcLoginCommand): string {
    Prefix + cmd.cluster + Marker + cmd.token
  }

  /** No character of the marker ends a line. */
  lemma MarkerIsSingleLine()
    ensures SingleLine(Marker)
  {
  }

  /** A match crosses no line break anywhere after its `Prefix`: the marker
      between the two groups holds none either. */
  lemma MatchIsLineFree(s: string, o: Span)
    requires MatchAt(s, o)
    ensures LineFree(s, o.start + |Prefix|, o.end)
  {
    MarkerIsSingleLine();
    forall p | o.marker <= p < o.marker + |Marker| ensures !IsLineTerminator(s[p]) {
      assert s[o.marker + (p - o.marker)] == Marker[p - o.marker];
    }
  }

  /** No match that starts at `i` runs past the end of the line `Prefix` sits on. */
  lemma MatchesEndWithinLine(s: string, i: nat)
    requires i + |Prefix| <= |s|
    ensures forall o :: MatchAt(s, o) && o.start == i ==> o.end <= LineEnd(s, i + |Prefix|)
  {
    forall o | MatchAt(s, o) && o.start == i ensures o.end <= LineEnd(s, i + |Prefix|) {
      MatchIsLineFree(s, o);
    }
  }

  /** Tries the start positions `i`, `i + 1`, ... in turn, as the regex engine
      does. At the first start holding `Prefix`, the token runs to the end of
      that line and the cluster to the last marker that still fits in it. */
  function FindFrom(s: string, i: nat): (r: Option<Span>)
    requires i <= |s|
    ensures r.None? ==> forall o :: MatchAt(s, o) ==> o.start < i
    ensures r.Some? ==>
              && i <= r.value.start
              && MatchAt(s, r.value)
              && (forall o :: MatchAt(s, o) ==> o.start < i || r.value.start <= o.start)
              && (forall o :: MatchAt(s, o) && o.start == r.value.start ==>
                               o.marker <= r.value.marker && o.end <= r.value.end)
    decreases |s| - i
  {
    if i + |Prefix| > |s| then None
    else if OccursAt(s, i, Prefix) then
      var e := LineEnd(s, i + |Prefix|);
      match LastIndexIn(s, Marker, i + |Prefix|, e)
      case Some(j) =>
        MatchFoundAt(s, i, j);
        Some(Span(i, j, e))
      case None =>
        NoMatchAt(s, i);
        FindFrom(s, i + 1)
    else
      NoMatchAt(s, i);
      FindFrom(s, i + 1)
  }

  /** At a start holding `Prefix`, the last marker on its line gives the match
      with the longest cluster and the longest token. */
  lemma MatchFoundAt(s: string, i: nat, j: nat)
    requires OccursAt(s, i, Prefix)
    requires LastIndexIn(s, Marker, i + |Prefix|, LineEnd(s, i + |Prefix|)) == Some(j)
    ensures MatchAt(s, Span(i, j, LineEnd(s, i + |Prefix|)))
    ensures forall o :: MatchAt(s, o) && o.start == i ==> o.marker <= j && o.end <= LineEnd(s, i + |Prefix|)
  {
    MatchesEndWithinLine(s, i);
  }

  /** No match starts where `Prefix` is missing, nor where no marker follows it
      on its line. */
  lemma NoMatchAt(s: string, i: nat)
    requires i + |Prefix| <= |s|
    requires !OccursAt(s, i, Prefix) || LastIndexIn(s, Marker, i + |Prefix|, LineEnd(s, i + |Prefix|)).None?
    ensures forall o :: MatchAt(s, o) ==> o.start != i
  {
    MatchesEndWithinLine(s, i);
  }

  /** `parseOcLoginCommand`: the two groups of the reported match, or `None`
      (the source's `undefined`) exactly when no line holds the pattern. Either
      group may be empty; neither crosses a line; the token never contains the
      marker, because the cluster group is greedy. */
  function ParseOcLoginCommand(command: string): (r: Option<OcLoginCommand>)
    ensures r.None? <==> !HasMatch(command)
    ensures r.Some? ==> exists sp :: IsReportedMatch(command, sp) && r.value == Groups(command, sp)
    ensures r.Some? ==> SingleLine(r.value.cluster) && SingleLine(r.value.token)
    ensures r.Some? ==> !Contains(r.value.token, Marker)
  {
    match FindFrom(command, 0)
    case None => None
    case Some(sp) =>
      assert IsReportedMatch(command, sp);
      TokenHasNoMarker(command, sp);
      Some(Groups(command, sp))
  }

  /** The greedy cluster leaves no marker inside the reported token: a later
      marker on the same line would give a longer cluster. */
  lemma TokenHasNoMarker(s: string, sp: Span)
    requires IsReportedMatch(s, sp)
    ensures !Contains(Groups(s, sp).token, Marker)
  {
    var t := Groups(s, sp).token;
    forall k | 0 <= k <= |t| - |Marker| ensures !OccursAt(t, k, Marker) {
      if OccursAt(t, k, Marker) {
        MarkerInTokenMatches(s, sp, k);
      }
    }
  }

  /** A marker inside the token of a match is itself the marker of a match with
      the same start and end. */
  lemma MarkerInTokenMatches(s: string, sp: Span, k: nat)
    requires MatchAt(s, sp) && OccursAt(Groups(s, sp).token, k, Marker)
    ensures MatchAt(s, Span(sp.start, sp.marker + |Marker| + k, sp.end))
  {
    var t := Groups(s, sp).token;
    var base := sp.marker + |Marker|;
    assert t == s[base..sp.end];
    forall m | 0 <= m < |Marker| ensures s[base + k + m] == Marker[m] {
      assert t[k + m] == Marker[m];
    }
    assert OccursAt(s, base + k, Marker);
    MatchIsLineFree(s, sp);
    assert LineFree(s, sp.start + |Prefix|, base + k);
    assert LineFree(s, base + k + |Marker|, sp.end);
  }

  /** The reported match is unique. */
  lemma ReportedMatchUnique(s: string, a: Span, b: Span)
    requires IsReportedMatch(s, a) && IsReportedMatch(s, b)
    ensures a == b
  {
  }

  /** Conversely to `ParseOcLoginCommand`'s contract: whenever `sp` is the match
      the engine reports, the parser returns its groups. */
  lemma ParseReturnsReportedMatch(s: string, sp: Span)
    requires IsReportedMatch(s, sp)
    ensures ParseOcLoginCommand(s) == Some(Groups(s, sp))
  {
    assert HasMatch(s);
    var other :| IsReportedMatch(s, other) && ParseOcLoginCommand(s).value == Groups(s, other);
    ReportedMatchUnique(s, sp, other);
  }

  /** Where the rendered command's marker sits. */
  function RenderedSpan(cmd: OcLoginCommand): Span {
    Span(0, |Prefix| + |cmd.cluster|, |Render(cmd)|)
  }

  /** Where each part of a command sits in its rendering. */
  lemma RenderLayout(cmd: OcLoginCommand)
    ensures var s := Render(cmd); var j := |Prefix| + |cmd.cluster|;
            && |s| == j + |Marker| + |cmd.token|
            && (forall k :: 0 <= k < |Prefix| ==> s[k] == Prefix[k])
            && (forall k :: 0 <= k < |cmd.cluster| ==> s[|Prefix| + k] == cmd.cluster[k])
            && (forall k :: 0 <= k < |Marker| ==> s[j + k] == Marker[k])
            && (forall k :: 0 <= k < |cmd.token| ==> s[j + |Marker| + k] == cmd.token[k])
  {
  }

  /** The rendered command matches at its start, with the command's own groups. */
  lemma RenderedMatch(cmd: OcLoginCommand)
    requires SingleLine(cmd.cluster) && SingleLine(cmd.token)
    ensures MatchAt(Render(cmd), RenderedSpan(cmd))
    ensures Groups(Render(cmd), RenderedSpan(cmd)) == cmd
  {
    RenderedLiterals(cmd);
    RenderedGroupsLineFree(cmd);
    RenderedGroups(cmd);
  }

  /** Both literals of the pattern occur where the rendering puts them. */
  lemma RenderedLiterals(cmd: OcLoginCommand)
    ensures OccursAt(Render(cmd), 0, Prefix)
    ensures OccursAt(Render(cmd), |Prefix| + |cmd.cluster|, Marker)
  {
    RenderLayout(cmd);
  }

  /** The rendering's groups are single-line when the command's parts are. */
  lemma RenderedGroupsLineFree(cmd: OcLoginCommand)
    requires SingleLine(cmd.cluster) && SingleLine(cmd.token)
    ensures LineFree(Render(cmd), |Prefix|, |Prefix| + |cmd.cluster|)
    ensures LineFree(Render(cmd), |Prefix| + |cmd.cluster| + |Marker|, |Render(cmd)|)
  {
    var s := Render(cmd);
    var j := |Prefix| + |cmd.cluster|;
    RenderedGroups(cmd);
    assert s[j + |Marker|..|s|] == cmd.token;
    SingleLineSlice(s, |Prefix|, j);
    SingleLineSlice(s, j + |Marker|, |s|);
  }

  /** Cutting the rendering at the literals gives back the command's parts. */
  lemma RenderedGroups(cmd: OcLoginCommand)
    ensures var j := |Prefix| + |cmd.cluster|;
            && Render(cmd)[|Prefix|..j] == cmd.cluster
            && Render(cmd)[j + |Marker|..] == cmd.token
  {
    var head := Prefix + cmd.cluster;
    assert Render(cmd) == head + (Marker + cmd.token);
    assert Render(cmd)[..|head|] == head;
    assert head[|Prefix|..] == cmd.cluster;
    assert Render(cmd) == (head + Marker) + cmd.token;
  }

  /** When the token holds no marker, no match at the start has a later marker. */
  lemma RenderedMarkerIsLast(cmd: OcLoginCommand)
    requires !Contains(cmd.token, Marker)
    ensures forall o :: MatchAt(Render(cmd), o) ==> o.marker <= |Prefix| + |cmd.cluster|
  {
    var head := Prefix + cmd.cluster + Marker;
    var s := Render(cmd);
    var j := |Prefix| + |cmd.cluster|;
    assert s == head + cmd.token;
    forall o | MatchAt(s, o) ensures o.marker <= j {
      if j < o.marker < j + |Marker| {
        NoMarkerInsideMarker(s, j, o.marker);
      } else if j + |Marker| <= o.marker {
        OccursInSuffix(head, cmd.token, o.marker - |head|, Marker);
      }
    }
  }

  /** Rendering a command and parsing it back gives the command again exactly when
      its token holds no marker, for single-line cluster and token (an empty
      cluster or token included). */
  lemma ParseRenderRoundTrip(cmd: OcLoginCommand)
    requires SingleLine(cmd.cluster) && SingleLine(cmd.token)
    ensures ParseOcLoginCommand(Render(cmd)) == Some(cmd) <==> !Contains(cmd.token, Marker)
  {
    if !Contains(cmd.token, Marker) {
      RenderedMatch(cmd);
      RenderedMarkerIsLast(cmd);
      assert IsReportedMatch(Render(cmd), RenderedSpan(cmd));
      ParseReturnsReportedMatch(Render(cmd), RenderedSpan(cmd));
    }
  }

  /** Two occurrences of the marker cannot overlap. */
  lemma NoMarkerInsideMarker(s: string, j: nat, m: nat)
    requires OccursAt(s, j, Marker) && j < m < j + |Marker|
    ensures !OccursAt(s, m, Marker)
  {
    MarkerTailHasNoSpace(m - j);
    assert s[m + 0] == s[j + (m - j)] == Marker[m - j] != Marker[0];
  }

  /** Only the first character of the marker is a space. */
  lemma MarkerTailHasNoSpace(k: int)
    requires 0 < k < |Marker|
    ensures Marker[k] != ' '
  {
  }

  /** A match wholly inside a prefix `x` of `z` is a match in `x`, and back. */
  lemma MatchInPrefix(x: string, z: string, o: Span)
    requires |x| <= |z| && x == z[..|x|]
    requires o.end <= |x|
    ensures MatchAt(z, o) <==> MatchAt(x, o)
  {
    if o.start + |Prefix| <= o.marker && o.marker + |Marker| <= o.end {
      OccursInPrefix(x, z, o.start, Prefix);
      OccursInPrefix(x, z, o.marker, Marker);
      forall p | 0 <= p < |x| ensures z[p] == x[p] {
        assert x[p] == z[..|x|][p];
      }
    }
  }

  /** A match that reaches past a line break `z[b]` has its `Prefix` after it. */
  lemma MatchAfterBreak(z: string, b: nat, o: Span)
    requires b < |z| && IsLineTerminator(z[b])
    requires MatchAt(z, o) && b < o.end
    ensures b < o.start + |Prefix|
  {
    MatchIsLineFree(z, o);
  }

  /** A line break after `x` keeps the match reported in `x` the reported one. */
  lemma ReportedMatchSurvivesLaterLines(x: string, nl: char, y: string, sp: Span)
    requires IsLineTerminator(nl)
    requires IsReportedMatch(x, sp)
    ensures IsReportedMatch(x + [nl] + y, sp)
  {
    var z := x + [nl] + y;
    assert x == z[..|x|];
    assert z[|x|] == nl;
    forall o | MatchAt(z, o) ensures MatchAt(x, o) || sp.start < o.start {
      if o.end <= |x| {
        MatchInPrefix(x, z, o);
      } else {
        MatchAfterBreak(z, |x|, o);
      }
    }
    MatchInPrefix(x, z, sp);
  }

  /** The reported match behind a successful parse. */
  lemma ReportedMatchOf(s: string) returns (sp: Span)
    requires ParseOcLoginCommand(s).Some?
    ensures IsReportedMatch(s, sp) && ParseOcLoginCommand(s) == Some(Groups(s, sp))
  {
    sp :| IsReportedMatch(s, sp) && ParseOcLoginCommand(s).value == Groups(s, sp);
  }

  /** A match's text is the command line its own groups render to. */
  lemma MatchText(s: string, sp: Span)
    requires MatchAt(s, sp)
    ensures OccursAt(s, sp.start, Render(Groups(s, sp)))
  {
    var a, b, m, e := sp.start, sp.start + |Prefix|, sp.marker, sp.end;
    assert s[a..b] == Prefix by {
      forall k | 0 <= k < |Prefix| ensures s[a..b][k] == Prefix[k] {
        assert s[a + k] == Prefix[k];
      }
    }
    assert s[m..m + |Marker|] == Marker by {
      forall k | 0 <= k < |Marker| ensures s[m..m + |Marker|][k] == Marker[k] {
        assert s[m + k] == Marker[k];
      }
    }
    var text := s[a..e];
    assert text == s[a..b] + s[b..m] + s[m..m + |Marker|] + s[m + |Marker|..e];
    assert text == Render(Groups(s, sp));
    forall k | 0 <= k < |text| ensures s[a + k] == text[k] {
    }
  }

  /** The groups are returned verbatim: `oc login <cluster> --token=<token>`
      occurs in the input, at a start no match precedes. */
  lemma ParsedCommandIsVerbatim(s: string)
    requires ParseOcLoginCommand(s).Some?
    ensures exists i :: && OccursAt(s, i, Render(ParseOcLoginCommand(s).value))
                        && forall o :: MatchAt(s, o) ==> i <= o.start
  {
    var sp := ReportedMatchOf(s);
    MatchText(s, sp);
  }

  /** A match inside the prefix `x` of `z` has the same groups in both. */
  lemma GroupsInPrefix(x: string, z: string, sp: Span)
    requires |x| <= |z| && x == z[..|x|]
    requires MatchAt(x, sp) && MatchAt(z, sp)
    ensures Groups(z, sp) == Groups(x, sp)
  {
    forall i | 0 <= i < |x| ensures z[i] == x[i] {
      assert x[i] == z[..|x|][i];
    }
    assert z[sp.start + |Prefix|..sp.marker] == x[sp.start + |Prefix|..sp.marker];
    assert z[sp.marker + |Marker|..sp.end] == x[sp.marker + |Marker|..sp.end];
  }

  /** Text after a line break cannot change what the first lines parse to: the
      leftmost match wins even when a later line holds another command. */
  lemma LaterLinesIgnored(x: string, nl: char, y: string)
    requires IsLineTerminator(nl)
    requires ParseOcLoginCommand(x).Some?
    ensures ParseOcLoginCommand(x + [nl] + y) == ParseOcLoginCommand(x)
  {
    var sp := ReportedMatchOf(x);
    LaterLinesIgnoredAt(x, nl, y, sp);
  }

  lemma LaterLinesIgnoredAt(x: string, nl: char, y: string, sp: Span)
    requires IsLineTerminator(nl)
    requires IsReportedMatch(x, sp)
    ensures ParseOcLoginCommand(x + [nl] + y) == Some(Groups(x, sp))
  {
    var z := x + [nl] + y;
    ReportedMatchSurvivesLaterLines(x, nl, y, sp);
    ParseReturnsReportedMatch(z, sp);
    assert x == z[..|x|];
    GroupsInPrefix(x, z, sp);
  }

  /** The URL and token of the command quoted above the paste handler. */
  const DocumentedCluster: string := "https://api.rh-us-east-1.openshift.com"
  const DocumentedToken: string := "FooC8x6u1R591NIYhgNMbdfOUjg8-aD-yt-sQVwcS8Y"

  /** The command quoted above the paste handler parses into its URL and its token. */
  lemma DocumentedExample()
    ensures ParseOcLoginCommand("oc login " + DocumentedCluster + " --token=" + DocumentedToken)
         == Some(OcLoginCommand(DocumentedCluster, DocumentedToken))
  {
    DocumentedClusterIsVisible();
    DocumentedTokenIsVisible();
    VisibleParts(DocumentedCluster);
    VisibleParts(DocumentedToken);
    ParseRenderRoundTrip(OcLoginCommand(DocumentedCluster, DocumentedToken));
  }

  lemma DocumentedClusterIsVisible()
    ensures Visible(DocumentedCluster)
  {
  }

  lemma DocumentedTokenIsVisible()
    ensures Visible(DocumentedToken)
  {
  }

  /** The cluster group may be empty: the pattern still matches and yields an
      empty cluster. */
  lemma EmptyClusterAccepted(token: string)
    requires SingleLine(token) && !Contains(token, Marker)
    ensures ParseOcLoginCommand(Prefix + Marker + token) == Some(OcLoginCommand("", token))
  {
    assert Render(OcLoginCommand("", token)) == Prefix + Marker + token;
    ParseRenderRoundTrip(OcLoginCommand("", token));
  }

  /** The token group may be empty too. */
  lemma EmptyTokenAccepted(cluster: string)
    requires SingleLine(cluster)
    ensures ParseOcLoginCommand(Prefix + cluster + Marker) == Some(OcLoginCommand(cluster, ""))
  {
    assert !Contains("", Marker);
    assert Render(OcLoginCommand(cluster, "")) == Prefix + cluster + Marker;
    ParseRenderRoundTrip(OcLoginCommand(cluster, ""));
  }

  /** Two commands pasted on one line, separated by a space, come back as one:
      the greedy cluster group runs on through the first token and the second
      `oc login `, and only the second command's token is the token. */
  lemma AdjacentCommandsMerge(first: OcLoginCommand, second: OcLoginCommand)
    requires SingleLine(first.cluster) && SingleLine(first.token)
    requires SingleLine(second.cluster) && SingleLine(second.token)
    requires !Contains(second.token, Marker)
    ensures ParseOcLoginCommand(Render(first) + " " + Render(second))
         == Some(OcLoginCommand(first.cluster + Marker + first.token + " " + Prefix + second.cluster, second.token))
  {
    var cluster := first.cluster + Marker + first.token + " " + Prefix + second.cluster;
    var merged := OcLoginCommand(cluster, second.token);
    MarkerIsSingleLine();
    assert SingleLine(" ") && SingleLine(Prefix);
    SingleLineConcat(first.cluster, Marker);
    SingleLineConcat(first.cluster + Marker, first.token);
    SingleLineConcat(first.cluster + Marker + first.token, " ");
    SingleLineConcat(first.cluster + Marker + first.token + " ", Prefix);
    SingleLineConcat(first.cluster + Marker + first.token + " " + Prefix, second.cluster);
    assert Render(merged) == Render(first) + " " + Render(second);
    ParseRenderRoundTrip(merged);
  }

  /** Every character is visible ASCII: no space, no control character. */
  predicate Visible(s: string) {
    forall k :: 0 <= k < |s| ==> '!' <= s[k] <= '~'
  }

  /** Visible text is single-line and, lacking spaces, cannot hold the marker. */
  lemma VisibleParts(s: string)
    requires Visible(s)
    ensures SingleLine(s) && !Contains(s, Marker)
  {
    forall k | 0 <= k <= |s| - |Marker| ensures !OccursAt(s, k, Marker) {
      assert s[k + 0] != Marker[0];
    }
  }
}
