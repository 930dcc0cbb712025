/**
 * The landing page: the theme flag and the selected tab, the panel the tab
 * selects, and the initials shown in the avatar when there is no picture.
 */
module Landing {
  import opened Wrappers

  /** The palette mode handed to the theme. */
  function PaletteMode(dark: bool): (mode: string)
    ensures mode == "dark" <==> dark
    ensures mode == "light" <==> !dark
  {
    if dark then "dark" else "light"
  }

  /** The tooltip on the theme button: "Toggle <mode> mode", naming the mode the button switches to. */
  function ToggleTooltip(dark: bool): (r: string)
    ensures |r| > 12 && r[..7] == "Toggle " && r[|r| - 5..] == " mode"
    ensures r[7..|r| - 5] == PaletteMode(!dark)
  {
    "Toggle " + (if dark then "light" else "dark") + " mode"
  }

  /** The tooltip offers the mode the button switches to, never the current one. */
  lemma TooltipOffersOtherMode(dark: bool)
    ensures ToggleTooltip(dark) == "Toggle " + PaletteMode(!dark) + " mode"
    ensures PaletteMode(!dark) != PaletteMode(dark)
  {
  }

  /** The four content panels. */
  datatype Panel = ResumePanel | ProjectsPanel | ContactPanel | AboutPanel

  /** The tab labels, in order; the value of each tab is its position. */
  const TabLabels: seq<string> := ["Resume", "Portfolio", "Contact", "About"]

  /** The values the tab strip can pass to `handleChange`. */
  function TabValues(): (vs: seq<int>)
    ensures |vs| == |TabLabels|
    ensures forall k :: 0 <= k < |vs| ==> vs[k] == k
  {
    seq(|TabLabels|, k => k)
  }

  /** The content area: four independent `tab === k` guards, one per panel. */
  function RenderedPanels(tab: int): (panels: seq<Panel>)
    ensures |panels| <= 1
    ensures |panels| == 1 <==> 0 <= tab < 4
    ensures tab == 0 ==> panels == [ResumePanel]
    ensures tab == 1 ==> panels == [ProjectsPanel]
    ensures tab == 2 ==> panels == [ContactPanel]
    ensures tab == 3 ==> panels == [AboutPanel]
  {
    (if tab == 0 then [ResumePanel] else []) +
    (if tab == 1 then [ProjectsPanel] else []) +
    (if tab == 2 then [ContactPanel] else []) +
    (if tab == 3 then [AboutPanel] else [])
  }

  /** Every tab the strip offers shows exactly one panel, and no two tabs show the same one. */
  lemma OfferedTabsShowDistinctPanels()
    ensures forall v :: v in TabValues() ==> |RenderedPanels(v)| == 1
    ensures forall v, w :: v in TabValues() && w in TabValues() && v != w ==>
      RenderedPanels(v) != RenderedPanels(w)
  {
    forall v | v in TabValues()
      ensures 0 <= v < 4
    {
      var k :| 0 <= k < |TabValues()| && TabValues()[k] == v;
    }
  }

  /** The page's own state: `dark` and `tab`. */
  class LandingState {
    var dark: bool
    var tab: int

    /** The page opens in dark mode on the first tab. */
    constructor ()
      ensures dark && tab == 0
    {
      dark := true;
      tab := 0;
    }

    /** The theme button: `setDark(d => !d)`. */
    method ToggleTheme()
      modifies this`dark
      ensures dark == !old(dark)
    {
      dark := !dark;
    }

    /** `handleChange`: `setTab(v)`. */
    method HandleChange(v: int)
      modifies this`tab
      ensures tab == v
    {
      tab := v;
    }
  }

  /** Pressing the theme button twice restores the theme and leaves the tab alone. */
  method ToggleTwice(page: LandingState)
    modifies page
    ensures page.dark == old(page.dark) && page.tab == old(page.tab)
  {
    page.ToggleTheme();
    page.ToggleTheme();
  }

  /** JavaScript's `split(sep)`: the pieces between separators, empty ones included. */
  function SplitOn(s: string, sep: char): (parts: seq<string>)
    ensures |parts| >= 1
    ensures forall i :: 0 <= i < |parts| ==> sep !in parts[i]
    ensures forall i, c :: 0 <= i < |parts| && c in parts[i] ==> c in s
  {
    if s == [] then [""]
    else
      var rest := SplitOn(s[1..], sep);
      assert forall c :: c in s[1..] ==> c in s;
      if s[0] == sep then [""] + rest
      else [[s[0]] + rest[0]] + rest[1..]
  }

  /**
   * JavaScript's `join(sep)`: nothing for no pieces; otherwise the first piece
   * in front, then the separator and the join of the rest.
   */
  function JoinWith(parts: seq<string>, sep: string): (r: string)
    ensures parts == [] ==> r == ""
    ensures parts != [] ==> |r| >= |parts[0]| && r[..|parts[0]|] == parts[0]
  {
    if parts == [] then ""
    else if |parts| == 1 then parts[0]
    else parts[0] + sep + JoinWith(parts[1..], sep)
  }

  /** A join ends with its last piece, and a separator precedes it when there are two or more. */
  lemma {:induction false} JoinEndsWithLast(parts: seq<string>, sep: string)
    requires parts != []
    ensures var r, last := JoinWith(parts, sep), parts[|parts| - 1];
      |r| >= |last| && r[|r| - |last|..] == last
    ensures var r, last := JoinWith(parts, sep), parts[|parts| - 1];
      |parts| > 1 ==> |r| >= |last| + |sep| && r[|r| - |last| - |sep|..|r| - |last|] == sep
  {
    if |parts| > 1 {
      JoinEndsWithLast(parts[1..], sep);
    }
  }

  /** Joining the pieces of a split with the separator gives back the string. */
  lemma {:induction false} JoinSplit(s: string, sep: char)
    ensures JoinWith(SplitOn(s, sep), [sep]) == s
  {
    if s != [] {
      var rest := SplitOn(s[1..], sep);
      JoinSplit(s[1..], sep);
      if s[0] != sep && |rest| > 1 {
        assert rest == [rest[0]] + rest[1..];
        assert JoinWith(rest, [sep]) == rest[0] + [sep] + JoinWith(rest[1..], [sep]);
      }
    }
  }

  /** A prefix without separators joins the first piece of what follows it. */
  lemma {:induction false} SplitPrefix(a: string, t: string, sep: char)
    requires sep !in a
    ensures SplitOn(a + t, sep) == [a + SplitOn(t, sep)[0]] + SplitOn(t, sep)[1..]
  {
    if a != [] {
      var tail := SplitOn(t, sep);
      SplitPrefix(a[1..], t, sep);
      assert (a + t)[1..] == a[1..] + t;
      var rest := SplitOn(a[1..] + t, sep);
      assert (a + t)[0] == a[0] != sep;
      assert SplitOn(a + t, sep) == [[a[0]] + rest[0]] + rest[1..];
      assert rest[0] == a[1..] + tail[0] && rest[1..] == tail[1..];
      assert [a[0]] + (a[1..] + tail[0]) == a + tail[0];
    } else {
      var tail := SplitOn(t, sep);
      assert a + t == t && a + tail[0] == tail[0];
      assert tail == [tail[0]] + tail[1..];
    }
  }

  /** Splitting a join of separator-free pieces gives back the pieces. */
  lemma {:induction false} SplitJoin(parts: seq<string>, sep: char)
    requires |parts| >= 1
    requires forall i :: 0 <= i < |parts| ==> sep !in parts[i]
    ensures SplitOn(JoinWith(parts, [sep]), sep) == parts
  {
    if |parts| == 1 {
      SplitPrefix(parts[0], [], sep);
      assert parts[0] + [] == parts[0];
    } else {
      var tail := JoinWith(parts[1..], [sep]);
      SplitJoin(parts[1..], sep);
      assert JoinWith(parts, [sep]) == parts[0] + ([sep] + tail);
      SplitPrefix(parts[0], [sep] + tail, sep);
      assert ([sep] + tail)[1..] == tail;
      assert parts[0] + "" == parts[0];
    }
  }

  /** `n[0]` of one piece, where an empty piece gives `undefined` and `join` prints that as nothing. */
  function FirstChar(piece: string): (r: string)
    ensures |r| <= 1
    ensures |r| == 1 <==> piece != []
    ensures r != [] ==> r[0] == piece[0]
  {
    if piece == [] then "" else [piece[0]]
  }

  /** Joining at most the first two pieces with nothing between them. */
  lemma JoinFirstTwo(heads: seq<string>)
    requires |heads| >= 1
    ensures JoinWith(heads[..if |heads| < 2 then |heads| else 2], "") ==
      heads[0] + (if |heads| > 1 then heads[1] else "")
  {
    if |heads| == 1 {
      assert heads[..1] == [heads[0]];
      assert heads[0] + "" == heads[0];
    } else {
      assert heads[..2] == [heads[0], heads[1]];
      assert [heads[0], heads[1]][1..] == [heads[1]];
      assert heads[0] + "" + heads[1] == heads[0] + heads[1];
    }
  }

  /**
   * `name.split(" ").map(n => n[0]).slice(0, 2).join("")`: the first
   * character of each of the first two pieces, where an empty piece gives
   * nothing.
   */
  function Initials(name: string): (r: string)
    ensures var parts := SplitOn(name, ' ');
      r == FirstChar(parts[0]) + (if |parts| > 1 then FirstChar(parts[1]) else "")
    ensures |r| <= 2
    ensures ' ' !in r
    ensures forall c :: c in r ==> c in name
    ensures name != [] && name[0] != ' ' ==> r != [] && r[0] == name[0]
  {
    var parts := SplitOn(name, ' ');
    var heads := seq(|parts|, k requires 0 <= k < |parts| => FirstChar(parts[k]));
    JoinFirstTwo(heads);
    assert forall k :: 0 <= k < |parts| && parts[k] != [] ==> parts[k][0] in parts[k];
    if name != [] && name[0] != ' ' then
      SplitPrefix([name[0]], name[1..], ' ');
      assert [name[0]] + name[1..] == name;
      JoinWith(heads[..if |heads| < 2 then |heads| else 2], "")
    else
      JoinWith(heads[..if |heads| < 2 then |heads| else 2], "")
  }

  /** The site owner's name gives "NT". */
  lemma InitialsOfOwner()
    ensures Initials("Nikhil Teja") == "NT"
  {
    SplitJoin(["Nikhil", "Teja"], ' ');
    assert JoinWith(["Nikhil", "Teja"], " ") == "Nikhil Teja";
    assert SplitOn("Nikhil Teja", ' ') == ["Nikhil", "Teja"];
  }

  /** What the avatar shows: a picture source, or text inside the circle. */
  datatype Avatar = Avatar(src: Option<string>, text: Option<string>)

  /**
   * `src={avatarUrl || undefined}` and `{!avatarUrl && initials}`: the picture
   * when there is a URL, the initials when it is empty, never both.
   */
  function AvatarFor(avatarUrl: string, name: string): (a: Avatar)
    ensures a.src.Some? <==> avatarUrl != ""
    ensures a.text.Some? <==> avatarUrl == ""
    ensures a.src.Some? ==> a.src.value == avatarUrl
    ensures a.text.Some? ==> a.text.value == Initials(name)
  {
    if avatarUrl != "" then Avatar(Some(avatarUrl), None)
    else Avatar(None, Some(Initials(name)))
  }
}
