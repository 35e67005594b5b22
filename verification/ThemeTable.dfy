/** The light/dark class pairs and their tokens (scripts/theme_codemod.py, `MAPPINGS` and `_expand_status`). */
module ThemeTable {
  import opened ThemeText

  datatype Mapping = Mapping(light: string, dark: string, token: string)

  const PAGES: seq<Mapping> := [
    Mapping("bg-surface-light", "dark:bg-surface-dark", "bg-background"),
    Mapping("bg-white", "dark:bg-gray-800", "bg-surface"),
    Mapping("bg-white", "dark:bg-gray-900", "bg-surface"),
    Mapping("bg-white", "dark:bg-surface-card", "bg-surface"),
    Mapping("bg-gray-50", "dark:bg-gray-900", "bg-background"),
    Mapping("bg-gray-50", "dark:bg-surface-dark", "bg-background")]

  const FILLS: seq<Mapping> := [
    Mapping("bg-gray-100", "dark:bg-gray-800", "bg-surface-2"),
    Mapping("bg-gray-100", "dark:bg-gray-700", "bg-surface-2"),
    Mapping("bg-white", "dark:bg-gray-700", "bg-input"),
    Mapping("bg-gray-50", "dark:bg-gray-700", "bg-sunken")]

  const HOVERS: seq<Mapping> := [
    Mapping("hover:bg-gray-100", "dark:hover:bg-gray-700", "hover:bg-hover"),
    Mapping("hover:border-gray-300", "dark:hover:border-gray-500", "hover:border-border-strong"),
    Mapping("hover:text-gray-900", "dark:hover:text-white", "hover:text-foreground")]

  const TEXTS: seq<Mapping> := [
    Mapping("text-gray-900", "dark:text-white", "text-foreground"),
    Mapping("text-gray-900", "dark:text-gray-100", "text-foreground"),
    Mapping("text-gray-800", "dark:text-white", "text-foreground"),
    Mapping("text-gray-500", "dark:text-gray-400", "text-muted"),
    Mapping("text-gray-600", "dark:text-gray-400", "text-muted"),
    Mapping("text-gray-600", "dark:text-gray-300", "text-muted"),
    Mapping("text-gray-700", "dark:text-gray-300", "text-label")]

  const BORDERS: seq<Mapping> := [
    Mapping("border-gray-200", "dark:border-gray-700", "border-border"),
    Mapping("border-gray-300", "dark:border-gray-600", "border-border"),
    Mapping("border-gray-200", "dark:border-gray-800", "border-border"),
    Mapping("border-gray-200", "dark:border-gray-600", "border-border"),
    Mapping("border-gray-300", "dark:border-gray-500", "border-border")]

  const BASE := PAGES + FILLS + HOVERS + TEXTS + BORDERS

  /** One token for every light in `lights` paired with every dark in `darks`. */
  function Row(light: string, darks: seq<string>, token: string): seq<Mapping> {
    if darks == [] then [] else [Mapping(light, darks[0], token)] + Row(light, darks[1..], token)
  }

  function Grid(lights: seq<string>, darks: seq<string>, token: string): seq<Mapping> {
    if lights == [] then [] else Row(lights[0], darks, token) + Grid(lights[1..], darks, token)
  }

  function Suffixed(stem: string, suffixes: seq<string>): (r: seq<string>)
    ensures |r| == |suffixes|
    ensures forall i | 0 <= i < |r| :: r[i] == stem + suffixes[i]
  {
    if suffixes == [] then [] else [stem + suffixes[0]] + Suffixed(stem, suffixes[1..])
  }

  function ExpandHue(hue: string, state: string): seq<Mapping> {
    Grid(Suffixed("bg-" + hue, ["-50", "-100"]),
         Suffixed("dark:bg-" + hue, ["-900", "-900/10", "-900/20", "-900/30", "-900/40", "-900/50"]),
         "bg-" + state + "-surface")
    + Grid(Suffixed("border-" + hue, ["-200", "-300", "-400"]),
           Suffixed("dark:border-" + hue, ["-600", "-700", "-800"]),
           "border-" + state + "-line")
    + Grid(Suffixed("text-" + hue, ["-600", "-700"]),
           Suffixed("dark:text-" + hue, ["-300", "-400"]),
           "text-" + state + "-fg")
    + Grid(Suffixed("text-" + hue, ["-800", "-900"]),
           Suffixed("dark:text-" + hue, ["-100", "-200", "-300"]),
           "text-" + state + "-strong")
  }

  function ExpandStatus(hues: seq<(string, string)>): seq<Mapping> {
    if hues == [] then [] else ExpandHue(hues[0].0, hues[0].1) + ExpandStatus(hues[1..])
  }

  const HUE_STATE := [
    ("blue", "info"), ("green", "success"), ("emerald", "success"), ("yellow", "warning"),
    ("amber", "warning"), ("red", "danger"), ("rose", "danger")]

  const MAPPINGS := BASE + ExpandStatus(HUE_STATE)

  // ------------------------------------------------ what the proofs rest on

  predicate IsDark(s: string) {
    |s| >= 5 && s[0] == 'd' && s[1] == 'a' && s[2] == 'r' && s[3] == 'k' && s[4] == ':'
  }

  predicate EndsIn(s: string, a: char, b: char) {
    |s| >= 2 && s[|s| - 2] == a && s[|s| - 1] == b
  }

  /** How a light class of the table ends: in a shade, `bg-white` or `bg-surface-light`. */
  predicate LightLike(s: string) {
    |s| >= 2 && (s[|s| - 1] == '0' || EndsIn(s, 't', 'e') || EndsIn(s, 'h', 't'))
  }

  /** No token is a light class, a dark class or `font-medium`. */
  predicate TokenLike(s: string) {
    |s| >= 2 && !LightLike(s) && !EndsIn(s, 'u', 'm') && !IsDark(s)
  }

  /** The colon of a variant, as in `hover:`, comes early. */
  predicate EarlyColon(s: string) {
    forall i | 6 <= i < |s| :: s[i] != ':'
  }

  predicate Spelled(m: Mapping) {
    IsRun(m.light) && EarlyColon(m.light) && IsRun(m.dark) && IsRun(m.token) && |m.token| >= 6
  }

  predicate Shaped(m: Mapping) {
    LightLike(m.light) && !IsDark(m.light) && IsDark(m.dark) && TokenLike(m.token)
  }

  predicate GoodMapping(m: Mapping) {
    Shaped(m) && Spelled(m)
  }

  predicate GoodTable(table: seq<Mapping>) {
    forall i | 0 <= i < |table| :: GoodMapping(table[i])
  }

  lemma GoodConcat(a: seq<Mapping>, b: seq<Mapping>)
    requires GoodTable(a) && GoodTable(b)
    ensures GoodTable(a + b)
  {
  }

  /** A generated pair: its light class ends in a shade. */
  predicate ShadeMapping(m: Mapping) {
    GoodMapping(m) && m.light[|m.light| - 1] == '0'
  }

  predicate ShadeTable(table: seq<Mapping>) {
    forall i | 0 <= i < |table| :: ShadeMapping(table[i])
  }

  lemma {:induction false} GridMembers(lights: seq<string>, darks: seq<string>, token: string)
    ensures forall m | m in Grid(lights, darks, token) :: m.light in lights && m.dark in darks && m.token == token
  {
    if lights != [] {
      RowMembers(lights[0], darks, token);
      GridMembers(lights[1..], darks, token);
    }
  }

  lemma {:induction false} RowMembers(light: string, darks: seq<string>, token: string)
    ensures forall m | m in Row(light, darks, token) :: m.light == light && m.dark in darks && m.token == token
  {
    if darks != [] {
      RowMembers(light, darks[1..], token);
    }
  }

  /** A run of class characters without a colon. */
  predicate Plain(s: string) {
    IsRun(s) && ':' !in s
  }

  lemma PlainConcat(a: string, b: string)
    requires IsRun(a) && IsRun(b)
    ensures IsRun(a + b) && (Plain(a) && Plain(b) ==> Plain(a + b))
  {
  }

  predicate IsShade(s: string) {
    LightLike(s) && !IsDark(s) && s[|s| - 1] == '0' && Plain(s)
  }

  lemma GridIsShade(lights: seq<string>, darks: seq<string>, token: string)
    requires TokenLike(token) && IsRun(token) && |token| >= 6
    requires forall i | 0 <= i < |lights| :: IsShade(lights[i])
    requires forall i | 0 <= i < |darks| :: IsDark(darks[i]) && IsRun(darks[i])
    ensures ShadeTable(Grid(lights, darks, token))
  {
    GridMembers(lights, darks, token);
    var grid := Grid(lights, darks, token);
    forall i | 0 <= i < |grid| ensures ShadeMapping(grid[i]) {
      assert grid[i] in grid;
    }
  }

  // Every class name of the table is one run of class characters.

  lemma SurfaceNames()
    ensures IsRun("bg-surface-light") && EarlyColon("bg-surface-light")
    ensures IsRun("bg-background")
    ensures IsRun("bg-white") && EarlyColon("bg-white")
    ensures IsRun("bg-surface")
    ensures IsRun("bg-gray-50") && EarlyColon("bg-gray-50")
    ensures IsRun("bg-gray-100") && EarlyColon("bg-gray-100")
    ensures IsRun("bg-surface-2")
    ensures IsRun("bg-input")
    ensures IsRun("bg-sunken")
  {
  }

  lemma DarkSurfaceNames()
    ensures IsRun("dark:bg-surface-dark")
    ensures IsRun("dark:bg-gray-800")
    ensures IsRun("dark:bg-gray-900")
    ensures IsRun("dark:bg-surface-card")
    ensures IsRun("dark:bg-gray-700")
  {
  }

  lemma HoverNames()
    ensures IsRun("hover:bg-gray-100") && EarlyColon("hover:bg-gray-100")
    ensures IsRun("hover:bg-hover")
    ensures IsRun("hover:border-gray-300") && EarlyColon("hover:border-gray-300")
  {
  }

  lemma HoverTextNames()
    ensures IsRun("hover:text-gray-900") && EarlyColon("hover:text-gray-900")
    ensures IsRun("hover:text-foreground")
    ensures IsRun("hover:border-border-strong")
  {
  }

  lemma DarkHoverNames()
    ensures IsRun("dark:hover:bg-gray-700")
    ensures IsRun("dark:hover:border-gray-500")
    ensures IsRun("dark:hover:text-white")
  {
  }

  lemma TextNames()
    ensures IsRun("text-gray-900") && EarlyColon("text-gray-900")
    ensures IsRun("text-foreground")
    ensures IsRun("text-gray-800") && EarlyColon("text-gray-800")
    ensures IsRun("text-gray-500") && EarlyColon("text-gray-500")
    ensures IsRun("text-muted")
    ensures IsRun("text-gray-600") && EarlyColon("text-gray-600")
    ensures IsRun("text-gray-700") && EarlyColon("text-gray-700")
    ensures IsRun("text-label")
  {
  }

  lemma DarkTextNames()
    ensures IsRun("dark:text-white")
    ensures IsRun("dark:text-gray-100")
    ensures IsRun("dark:text-gray-400")
    ensures IsRun("dark:text-gray-300")
  {
  }

  lemma BorderNames()
    ensures IsRun("border-gray-200") && EarlyColon("border-gray-200")
    ensures IsRun("border-border")
    ensures IsRun("border-gray-300") && EarlyColon("border-gray-300")
  {
  }

  lemma DarkBorderNames()
    ensures IsRun("dark:border-gray-700")
    ensures IsRun("dark:border-gray-600")
    ensures IsRun("dark:border-gray-800")
    ensures IsRun("dark:border-gray-500")
  {
  }

  lemma PagesAreSpelled()
    ensures forall i | 0 <= i < |PAGES| :: Spelled(PAGES[i])
  {
    SurfaceNames();
    DarkSurfaceNames();
    assert Spelled(PAGES[0]);
    assert Spelled(PAGES[1]);
    assert Spelled(PAGES[2]);
    assert Spelled(PAGES[3]);
    assert Spelled(PAGES[4]);
    assert Spelled(PAGES[5]);
  }

  lemma FillsAreSpelled()
    ensures forall i | 0 <= i < |FILLS| :: Spelled(FILLS[i])
  {
    SurfaceNames();
    DarkSurfaceNames();
    assert Spelled(FILLS[0]);
    assert Spelled(FILLS[1]);
    assert Spelled(FILLS[2]);
    assert Spelled(FILLS[3]);
  }

  lemma HoversAreSpelled()
    ensures forall i | 0 <= i < |HOVERS| :: Spelled(HOVERS[i])
  {
    HoverNames();
    HoverTextNames();
    DarkHoverNames();
    assert Spelled(HOVERS[0]);
    assert Spelled(HOVERS[1]);
    assert Spelled(HOVERS[2]);
  }

  lemma TextsAreSpelled()
    ensures forall i | 0 <= i < |TEXTS| :: Spelled(TEXTS[i])
  {
    TextNames();
    DarkTextNames();
    assert Spelled(TEXTS[0]);
    assert Spelled(TEXTS[1]);
    assert Spelled(TEXTS[2]);
    assert Spelled(TEXTS[3]);
    assert Spelled(TEXTS[4]);
    assert Spelled(TEXTS[5]);
    assert Spelled(TEXTS[6]);
  }

  lemma BordersAreSpelled()
    ensures forall i | 0 <= i < |BORDERS| :: Spelled(BORDERS[i])
  {
    BorderNames();
    DarkBorderNames();
    assert Spelled(BORDERS[0]);
    assert Spelled(BORDERS[1]);
    assert Spelled(BORDERS[2]);
    assert Spelled(BORDERS[3]);
    assert Spelled(BORDERS[4]);
  }

  lemma PagesGoodA()
    ensures Shaped(PAGES[0]) && Shaped(PAGES[1])
  {
    assert Shaped(PAGES[0]);
    assert Shaped(PAGES[1]);
  }

  lemma PagesGoodB()
    ensures Shaped(PAGES[2]) && Shaped(PAGES[3])
  {
    assert Shaped(PAGES[2]);
    assert Shaped(PAGES[3]);
  }

  lemma PagesGoodC()
    ensures Shaped(PAGES[4]) && Shaped(PAGES[5])
  {
    assert Shaped(PAGES[4]);
    assert Shaped(PAGES[5]);
  }

  lemma PagesAreGood()
    ensures GoodTable(PAGES)
  {
    PagesAreSpelled();
    PagesGoodA();
    PagesGoodB();
    PagesGoodC();
  }

  lemma FillsAreGood()
    ensures GoodTable(FILLS)
  {
    FillsAreSpelled();
    assert Shaped(FILLS[0]);
    assert Shaped(FILLS[1]);
    assert Shaped(FILLS[2]);
    assert Shaped(FILLS[3]);
  }

  lemma HoversGoodA()
    ensures Shaped(HOVERS[0])
  {
    assert Shaped(HOVERS[0]);
  }

  lemma HoversGoodB()
    ensures Shaped(HOVERS[1])
  {
    assert Shaped(HOVERS[1]);
  }

  lemma HoversGoodC()
    ensures Shaped(HOVERS[2])
  {
    assert Shaped(HOVERS[2]);
  }

  lemma HoversAreGood()
    ensures GoodTable(HOVERS)
  {
    HoversAreSpelled();
    HoversGoodA();
    HoversGoodB();
    HoversGoodC();
  }

  lemma TextsGoodA()
    ensures Shaped(TEXTS[0]) && Shaped(TEXTS[1])
  {
    assert Shaped(TEXTS[0]);
    assert Shaped(TEXTS[1]);
  }

  lemma TextsGoodB()
    ensures Shaped(TEXTS[2]) && Shaped(TEXTS[3])
  {
    assert Shaped(TEXTS[2]);
    assert Shaped(TEXTS[3]);
  }

  lemma TextsGoodC()
    ensures Shaped(TEXTS[4]) && Shaped(TEXTS[5]) && Shaped(TEXTS[6])
  {
    assert Shaped(TEXTS[4]);
    assert Shaped(TEXTS[5]);
    assert Shaped(TEXTS[6]);
  }

  lemma TextsAreGood()
    ensures GoodTable(TEXTS)
  {
    TextsAreSpelled();
    TextsGoodA();
    TextsGoodB();
    TextsGoodC();
  }

  lemma BordersAreGood()
    ensures GoodTable(BORDERS)
  {
    BordersAreSpelled();
    assert Shaped(BORDERS[0]);
    assert Shaped(BORDERS[1]);
    assert Shaped(BORDERS[2]);
    assert Shaped(BORDERS[3]);
    assert Shaped(BORDERS[4]);
  }

  lemma BaseIsGood()
    ensures GoodTable(BASE)
  {
    PagesAreGood();
    FillsAreGood();
    HoversAreGood();
    TextsAreGood();
    BordersAreGood();
    GoodConcat(PAGES, FILLS);
    GoodConcat(PAGES + FILLS, HOVERS);
    GoodConcat(PAGES + FILLS + HOVERS, TEXTS);
    GoodConcat(PAGES + FILLS + HOVERS + TEXTS, BORDERS);
  }

  /** A shade ends in 0, a stem that starts in `b` or `t` is not dark, and a dark stem is. */
  lemma StemsAreGood(kind: string, hue: string, shades: seq<string>, darkShades: seq<string>)
    requires Plain(kind) && kind[0] != 'd' && Plain(hue)
    requires forall i | 0 <= i < |shades| :: |shades[i]| >= 2 && shades[i][|shades[i]| - 1] == '0' && Plain(shades[i])
    requires forall i | 0 <= i < |darkShades| :: IsRun(darkShades[i])
    ensures forall i | 0 <= i < |shades| :: IsShade(Suffixed(kind + hue, shades)[i])
    ensures forall i | 0 <= i < |darkShades| ::
              var s := Suffixed("dark:" + kind + hue, darkShades)[i]; IsDark(s) && IsRun(s)
  {
    PlainConcat(kind, hue);
    forall i | 0 <= i < |shades| ensures IsShade(Suffixed(kind + hue, shades)[i]) {
      var s := kind + hue + shades[i];
      PlainConcat(kind + hue, shades[i]);
      assert s[|s| - 1] == shades[i][|shades[i]| - 1] && s[0] == kind[0];
    }
    PlainConcat("dark:", kind);
    PlainConcat("dark:" + kind, hue);
    forall i | 0 <= i < |darkShades|
      ensures var s := Suffixed("dark:" + kind + hue, darkShades)[i]; IsDark(s) && IsRun(s)
    {
      var s := "dark:" + kind + hue + darkShades[i];
      PlainConcat("dark:" + kind + hue, darkShades[i]);
      assert s[0] == 'd' && s[1] == 'a' && s[2] == 'r' && s[3] == 'k' && s[4] == ':';
    }
  }

  lemma TokenIsGood(kind: string, state: string, role: string)
    requires IsRun(kind) && kind[0] != 'd' && IsRun(state) && TokenLike(role) && IsRun(role) && |kind| + |role| >= 6
    ensures var s := kind + state + role; TokenLike(s) && IsRun(s) && |s| >= 6
  {
    var s := kind + state + role;
    PlainConcat(kind, state);
    PlainConcat(kind + state, role);
    assert s[|s| - 1] == role[|role| - 1] && s[|s| - 2] == role[|role| - 2] && s[0] == kind[0];
  }

  /** All the pairs of one kind, from its light and dark shades. */
  lemma KindIsGood(kind: string, hue: string, shades: seq<string>, darkShades: seq<string>, state: string, role: string)
    requires Plain(kind) && kind[0] != 'd' && Plain(hue) && IsRun(state)
    requires TokenLike(role) && IsRun(role) && |kind| + |role| >= 6
    requires forall i | 0 <= i < |shades| :: |shades[i]| >= 2 && shades[i][|shades[i]| - 1] == '0' && Plain(shades[i])
    requires forall i | 0 <= i < |darkShades| :: IsRun(darkShades[i])
    ensures ShadeTable(Grid(Suffixed(kind + hue, shades), Suffixed("dark:" + kind + hue, darkShades),
                            kind + state + role))
  {
    StemsAreGood(kind, hue, shades, darkShades);
    TokenIsGood(kind, state, role);
    GridIsShade(Suffixed(kind + hue, shades), Suffixed("dark:" + kind + hue, darkShades), kind + state + role);
  }

  lemma Shades()
    ensures Plain("-50") && Plain("-100") && Plain("-200") && Plain("-300") && Plain("-400")
    ensures Plain("-600") && Plain("-700") && Plain("-800") && Plain("-900")
  {
  }

  lemma Alphas()
    ensures IsRun("-900/10") && IsRun("-900/20") && IsRun("-900/30") && IsRun("-900/40") && IsRun("-900/50")
  {
  }

  lemma Kinds()
    ensures Plain("bg-") && Plain("border-") && Plain("text-")
    ensures "dark:" + "bg-" == "dark:bg-" && "dark:" + "border-" == "dark:border-" && "dark:" + "text-" == "dark:text-"
  {
  }

  lemma Roles()
    ensures IsRun("-surface") && TokenLike("-surface") && IsRun("-line") && TokenLike("-line")
    ensures IsRun("-fg") && TokenLike("-fg") && IsRun("-strong") && TokenLike("-strong")
  {
  }

  lemma SurfaceIsGood(hue: string, state: string)
    requires Plain(hue) && IsRun(state)
    ensures ShadeTable(Grid(Suffixed("bg-" + hue, ["-50", "-100"]),
              Suffixed("dark:bg-" + hue, ["-900", "-900/10", "-900/20", "-900/30", "-900/40", "-900/50"]),
              "bg-" + state + "-surface"))
  {
    Kinds();
    Shades();
    Alphas();
    Roles();
    KindIsGood("bg-", hue, ["-50", "-100"], ["-900", "-900/10", "-900/20", "-900/30", "-900/40", "-900/50"],
               state, "-surface");
  }

  lemma LineIsGood(hue: string, state: string)
    requires Plain(hue) && IsRun(state)
    ensures ShadeTable(Grid(Suffixed("border-" + hue, ["-200", "-300", "-400"]),
              Suffixed("dark:border-" + hue, ["-600", "-700", "-800"]), "border-" + state + "-line"))
  {
    Kinds();
    Shades();
    Roles();
    KindIsGood("border-", hue, ["-200", "-300", "-400"], ["-600", "-700", "-800"], state, "-line");
  }

  lemma BodyIsGood(hue: string, state: string)
    requires Plain(hue) && IsRun(state)
    ensures ShadeTable(Grid(Suffixed("text-" + hue, ["-600", "-700"]),
              Suffixed("dark:text-" + hue, ["-300", "-400"]), "text-" + state + "-fg"))
  {
    Kinds();
    Shades();
    Roles();
    KindIsGood("text-", hue, ["-600", "-700"], ["-300", "-400"], state, "-fg");
  }

  lemma HeadingIsGood(hue: string, state: string)
    requires Plain(hue) && IsRun(state)
    ensures ShadeTable(Grid(Suffixed("text-" + hue, ["-800", "-900"]),
              Suffixed("dark:text-" + hue, ["-100", "-200", "-300"]), "text-" + state + "-strong"))
  {
    Kinds();
    Shades();
    Roles();
    KindIsGood("text-", hue, ["-800", "-900"], ["-100", "-200", "-300"], state, "-strong");
  }

  lemma HueIsGood(hue: string, state: string)
    requires Plain(hue) && IsRun(state)
    ensures ShadeTable(ExpandHue(hue, state))
  {
    SurfaceIsGood(hue, state);
    LineIsGood(hue, state);
    BodyIsGood(hue, state);
    HeadingIsGood(hue, state);
  }

  predicate PlainHues(hues: seq<(string, string)>) {
    forall i | 0 <= i < |hues| :: Plain(hues[i].0) && IsRun(hues[i].1)
  }

  lemma HueNames()
    ensures Plain("blue") && Plain("green") && Plain("emerald") && Plain("yellow")
    ensures Plain("amber") && Plain("red") && Plain("rose")
    ensures IsRun("info") && IsRun("success") && IsRun("warning") && IsRun("danger")
  {
  }

  lemma HuesArePlain()
    ensures PlainHues(HUE_STATE)
  {
    HueNames();
  }

  lemma {:induction false} StatusIsGood(hues: seq<(string, string)>)
    requires PlainHues(hues)
    ensures ShadeTable(ExpandStatus(hues))
  {
    if hues != [] {
      HueIsGood(hues[0].0, hues[0].1);
      StatusIsGood(hues[1..]);
    }
  }

  lemma ShadeIsGood(table: seq<Mapping>)
    requires ShadeTable(table)
    ensures GoodTable(table)
  {
  }

  lemma GoodTableApart(table: seq<Mapping>)
    requires GoodTable(table)
    ensures forall m, n | m in table && n in table :: m.token != n.light && m.token != n.dark && m.light != n.dark
  {
    forall m | m in table ensures GoodMapping(m) {
      var i :| 0 <= i < |table| && table[i] == m;
    }
  }

  /** Every dark class of the table is one, no light class and no token is, and no token is a
      light class of any pair: replacing a pair never makes another. */
  lemma MappingsAreGood()
    ensures GoodTable(MAPPINGS)
    ensures forall m, n | m in MAPPINGS && n in MAPPINGS :: m.token != n.light && m.token != n.dark && m.light != n.dark
  {
    BaseIsGood();
    HuesArePlain();
    StatusIsGood(HUE_STATE);
    ShadeIsGood(ExpandStatus(HUE_STATE));
    GoodConcat(BASE, ExpandStatus(HUE_STATE));
    GoodTableApart(MAPPINGS);
  }

  /** Of the pairs, only `bg-white` with `dark:bg-gray-800` is in this set of classes. */
  const CARD := {"bg-white", "font-medium", "dark:bg-gray-800", "dark:text-white"}

  predicate Present(m: Mapping, present: set<string>) {
    m.light in present && m.dark in present
  }

  const WHITE_CARD := Mapping("bg-white", "dark:bg-gray-800", "bg-surface")

  predicate OnlyCard(table: seq<Mapping>) {
    forall i | 0 <= i < |table| :: Present(table[i], CARD) ==> table[i] == WHITE_CARD
  }

  lemma ShadesAreNoCard(table: seq<Mapping>)
    requires ShadeTable(table)
    ensures OnlyCard(table)
  {
    forall i | 0 <= i < |table| ensures table[i].light !in CARD {
      assert ShadeMapping(table[i]);
      assert "bg-white"[7] != '0' && "font-medium"[10] != '0' && "dark:text-white"[14] != '0';
      assert IsDark("dark:bg-gray-800");
    }
  }

  lemma FillsAreNoCard()
    ensures OnlyCard(FILLS)
  {
  }

  lemma PagesHaveOneCard()
    ensures OnlyCard(PAGES)
  {
  }

  lemma OthersAreNoCard()
    ensures OnlyCard(HOVERS) && OnlyCard(BORDERS)
  {
  }

  lemma TextsAreNoCard()
    ensures OnlyCard(TEXTS)
  {
  }

  lemma OnlyConcat(a: seq<Mapping>, b: seq<Mapping>)
    requires OnlyCard(a) && OnlyCard(b)
    ensures OnlyCard(a + b)
  {
  }

  lemma InFront(m: Mapping, a: seq<Mapping>, b: seq<Mapping>)
    requires m in a
    ensures m in a + b
  {
  }

  lemma WhiteCardIsMapped()
    ensures WHITE_CARD in MAPPINGS
  {
    assert PAGES[1] == WHITE_CARD;
    InFront(WHITE_CARD, PAGES, FILLS);
    InFront(WHITE_CARD, PAGES + FILLS, HOVERS);
    InFront(WHITE_CARD, PAGES + FILLS + HOVERS, TEXTS);
    InFront(WHITE_CARD, PAGES + FILLS + HOVERS + TEXTS, BORDERS);
    InFront(WHITE_CARD, BASE, ExpandStatus(HUE_STATE));
  }

  lemma OneCardPair()
    ensures OnlyCard(MAPPINGS) && WHITE_CARD in MAPPINGS
  {
    PagesHaveOneCard();
    FillsAreNoCard();
    OthersAreNoCard();
    TextsAreNoCard();
    HuesArePlain();
    StatusIsGood(HUE_STATE);
    ShadesAreNoCard(ExpandStatus(HUE_STATE));
    OnlyConcat(PAGES, FILLS);
    OnlyConcat(PAGES + FILLS, HOVERS);
    OnlyConcat(PAGES + FILLS + HOVERS, TEXTS);
    OnlyConcat(PAGES + FILLS + HOVERS + TEXTS, BORDERS);
    OnlyConcat(BASE, ExpandStatus(HUE_STATE));
    WhiteCardIsMapped();
  }
}
