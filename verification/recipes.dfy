/** The board and the edit form of the recipe app: recipe records, the
    filter that decides which recipes the board shows, the favorite toggle
    of the slide view, and the validation and title derivation of a save.
    The record store itself is not modelled; what the app asks of it is
    returned as a `StoreCall` value. */
module Recipes {
  import opened Wrappers
  import opened Text

  // ---------------------------------------------------------------------
  // Records and store requests
  // ---------------------------------------------------------------------

  /** A stored recipe. The store assigns `id`; the timestamps are clock
      readings taken as numbers. */
  datatype Recipe = Recipe(
    id: nat,
    title: string,
    markdownText: string,
    category: string,
    favorite: bool,
    createdAt: int,
    updatedAt: int)

  /** A record handed to the store to be added; the store assigns its id. */
  datatype NewRecipe = NewRecipe(
    title: string,
    markdownText: string,
    category: string,
    updatedAt: int,
    favorite: bool,
    createdAt: int)

  /** The fields an update merges into a stored record: either only the
      favorite flag, or exactly title, text, category and update time. */
  datatype Patch =
    | FavoritePatch(favorite: bool)
    | EditPatch(title: string, markdownText: string, category: string, updatedAt: int)

  /** A request to the record store. */
  datatype StoreCall = Add(record: NewRecipe) | Update(id: nat, patch: Patch)

  // ---------------------------------------------------------------------
  // Board filter
  // ---------------------------------------------------------------------

  /** The board's filter: a category or "all", favorites only or not, and a
      search text that is kept in lower case. */
  datatype Filter = Filter(category: string, favorite: bool, search: string)

  /** The filter the app starts with, which lets every recipe through. */
  const InitialFilter := Filter("all", false, "")

  /** A recipe passes when all three tests pass: the category is "all" or the
      recipe's own; favorites are not required or the recipe is one; the
      search text is empty or occurs in the lower-cased title. */
  predicate Passes(f: Filter, r: Recipe) {
    && (f.category == "all" || r.category == f.category)
    && (!f.favorite || r.favorite)
    && (f.search == "" || Contains(Lower(r.title), f.search))
  }

  /** The recipes the board shows: the passing ones, in the order given. */
  function FilterRecipes(recipes: seq<Recipe>, f: Filter): (shown: seq<Recipe>)
    ensures |shown| <= |recipes|
  {
    if recipes == [] then []
    else
      (if Passes(f, recipes[0]) then [recipes[0]] else []) + FilterRecipes(recipes[1..], f)
  }

  /** The shown recipes are exactly the passing ones: a passing recipe is
      shown as often as it occurs, a failing one not at all. */
  lemma {:induction false} FilterCounts(recipes: seq<Recipe>, f: Filter)
    ensures forall r :: multiset(FilterRecipes(recipes, f))[r] ==
                        if Passes(f, r) then multiset(recipes)[r] else 0
    ensures forall r :: r in FilterRecipes(recipes, f) <==> r in recipes && Passes(f, r)
  {
    if recipes != [] {
      var head := if Passes(f, recipes[0]) then [recipes[0]] else [];
      var rest := FilterRecipes(recipes[1..], f);
      FilterCounts(recipes[1..], f);
      assert recipes == [recipes[0]] + recipes[1..];
      assert multiset(recipes) == multiset([recipes[0]]) + multiset(recipes[1..]);
      assert FilterRecipes(recipes, f) == head + rest;
      assert multiset(head + rest) == multiset(head) + multiset(rest);
    }
  }

  /** `a` is `b` with some elements left out, the rest in their order. */
  predicate Subsequence<T(==)>(a: seq<T>, b: seq<T>) {
    a == [] || (b != [] && ((a[0] == b[0] && Subsequence(a[1..], b[1..])) || Subsequence(a, b[1..])))
  }

  /** The board keeps the order of the list it is given. */
  lemma {:induction false} FilterIsSubsequence(recipes: seq<Recipe>, f: Filter)
    ensures Subsequence(FilterRecipes(recipes, f), recipes)
  {
    if recipes != [] {
      var shown := FilterRecipes(recipes, f);
      FilterIsSubsequence(recipes[1..], f);
      if Passes(f, recipes[0]) {
        assert shown[0] == recipes[0];
        assert shown[1..] == FilterRecipes(recipes[1..], f);
      } else {
        assert shown == FilterRecipes(recipes[1..], f);
      }
    }
  }

  /** Filtering distributes over concatenation: the shown recipes of a list
      are the shown recipes of its front followed by those of its back. */
  lemma {:induction false} FilterAppend(xs: seq<Recipe>, ys: seq<Recipe>, f: Filter)
    ensures FilterRecipes(xs + ys, f) == FilterRecipes(xs, f) + FilterRecipes(ys, f)
  {
    if xs == [] {
      assert xs + ys == ys;
    } else {
      assert (xs + ys)[0] == xs[0];
      assert (xs + ys)[1..] == xs[1..] + ys;
      FilterAppend(xs[1..], ys, f);
    }
  }

  /** The initial filter shows every recipe, in order. */
  lemma {:induction false} InitialFilterShowsAll(recipes: seq<Recipe>)
    ensures FilterRecipes(recipes, InitialFilter) == recipes
  {
    if recipes != [] {
      InitialFilterShowsAll(recipes[1..]);
    }
  }

  /** Filtering the shown recipes again changes nothing. */
  lemma {:induction false} FilterIdempotent(recipes: seq<Recipe>, f: Filter)
    ensures FilterRecipes(FilterRecipes(recipes, f), f) == FilterRecipes(recipes, f)
  {
    if recipes != [] {
      var rest := FilterRecipes(recipes[1..], f);
      FilterIdempotent(recipes[1..], f);
      if Passes(f, recipes[0]) {
        assert FilterRecipes(recipes, f) == [recipes[0]] + rest;
        FilterAppend([recipes[0]], rest, f);
        assert [recipes[0]][1..] == [];
      } else {
        assert FilterRecipes(recipes, f) == rest;
      }
    }
  }

  /** A user action on the filter controls: typing into the search box, or
      clicking a chip that carries a category or a filter name. */
  datatype FilterEvent = SearchInput(typed: string) | ChipClick(chipCategory: string, chipFilter: string)

  /** The filter after an action. The search text is lower-cased as it is
      typed; a category chip selects its category; the favorite chip flips
      the favorites-only switch. */
  function ApplyFilterEvent(f: Filter, e: FilterEvent): (g: Filter)
    ensures e.SearchInput? ==> g.category == f.category && g.favorite == f.favorite
    ensures e.ChipClick? ==> g.search == f.search
    ensures e.ChipClick? && e.chipCategory != "" ==> g.favorite == f.favorite
  {
    match e
    case SearchInput(typed) => f.(search := Lower(typed))
    case ChipClick(c, name) =>
      if c != "" then f.(category := c)
      else if name == "favorite" then f.(favorite := !f.favorite)
      else f
  }

  /** Search ignores case on both sides: after typing a query, a recipe's
      search test passes exactly when the lower-cased query is empty or
      occurs in the lower-cased title. */
  lemma SearchIgnoresCase(f: Filter, typed: string, r: Recipe)
    ensures var g := ApplyFilterEvent(f, SearchInput(typed));
            Passes(g, r) <==>
              && (f.category == "all" || r.category == f.category)
              && (!f.favorite || r.favorite)
              && (typed == "" || Contains(Lower(r.title), Lower(typed)))
  {
  }

  /** Queries that agree up to case give the same filter. */
  lemma SearchCaseBlind(f: Filter, a: string, b: string)
    requires Lower(a) == Lower(b)
    ensures ApplyFilterEvent(f, SearchInput(a)) == ApplyFilterEvent(f, SearchInput(b))
  {
  }

  /** The search text the filter keeps is always in lower case. */
  lemma SearchStaysLower(f: Filter, typed: string)
    ensures var g := ApplyFilterEvent(f, SearchInput(typed));
            Lower(g.search) == g.search
  {
    LowerIdempotent(typed);
  }

  /** A category chip selects its category and nothing else; the favorite
      chip flips the favorites-only switch and nothing else, so two clicks
      on it restore the filter; any other chip changes nothing. */
  lemma ChipClicks(f: Filter, c: string, name: string)
    ensures c != "" ==> ApplyFilterEvent(f, ChipClick(c, name)) == f.(category := c)
    ensures c == "" && name == "favorite" ==>
              ApplyFilterEvent(f, ChipClick(c, name)) == f.(favorite := !f.favorite)
              && ApplyFilterEvent(ApplyFilterEvent(f, ChipClick(c, name)), ChipClick(c, name)) == f
    ensures c == "" && name != "favorite" ==> ApplyFilterEvent(f, ChipClick(c, name)) == f
  {
  }

  /** "Curry Rice" is found by typing "CURRY". */
  lemma SearchExample()
    ensures var r := Recipe(1, "Curry Rice", "# Curry Rice", "japanese", false, 0, 0);
            Passes(ApplyFilterEvent(InitialFilter, SearchInput("CURRY")), r)
  {
    var t := Lower("Curry Rice");
    assert t[..5] == "curry";
    assert StartsWith(t[0..], Lower("CURRY"));
  }

  // ---------------------------------------------------------------------
  // Favorite toggle
  // ---------------------------------------------------------------------

  /** The position of the first recipe with the given id (`Array.find`). */
  function FindIndex(recipes: seq<Recipe>, id: nat): (r: Option<nat>)
    ensures r.Some? ==> r.value < |recipes| && recipes[r.value].id == id
    ensures r.Some? ==> forall j :: 0 <= j < r.value ==> recipes[j].id != id
    ensures r.None? ==> forall j :: 0 <= j < |recipes| ==> recipes[j].id != id
  {
    if recipes == [] then None
    else if recipes[0].id == id then Some(0)
    else match FindIndex(recipes[1..], id)
      case Some(i) => Some(i + 1)
      case None => None
  }

  /** The local list after the toggle, and the update sent to the store. */
  datatype Toggled = Toggled(recipes: seq<Recipe>, request: Option<StoreCall>)

  /** The slide view's favorite button. Without a current recipe (no id, or
      the falsy id 0) or when no recipe has that id, nothing happens;
      otherwise the first recipe with that id has its flag flipped and the
      new flag is sent to the store. */
  function ToggleFavorite(recipes: seq<Recipe>, current: Option<nat>): (t: Toggled)
    ensures |t.recipes| == |recipes|
    ensures forall j :: 0 <= j < |recipes| ==>
              t.recipes[j] == recipes[j].(favorite := t.recipes[j].favorite)
  {
    if current.None? || current.value == 0 then Toggled(recipes, None)
    else
      match FindIndex(recipes, current.value)
      case None => Toggled(recipes, None)
      case Some(i) =>
        var flag := !recipes[i].favorite;
        Toggled(recipes[i := recipes[i].(favorite := flag)],
                Some(Update(current.value, FavoritePatch(flag))))
  }

  /** Ids that identify at most one recipe. */
  predicate UniqueIds(recipes: seq<Recipe>) {
    forall i, j :: 0 <= i < |recipes| && 0 <= j < |recipes| && recipes[i].id == recipes[j].id ==> i == j
  }

  /** With unique ids, toggling flips the flag of the recipe whose id is the
      current one and leaves every other recipe exactly as it was; the store
      receives that recipe's new flag. */
  lemma ToggleFlipsOnlyCurrent(recipes: seq<Recipe>, id: nat)
    requires id != 0
    requires UniqueIds(recipes)
    ensures var t := ToggleFavorite(recipes, Some(id));
            forall j :: 0 <= j < |recipes| ==>
              t.recipes[j] == if recipes[j].id == id
                              then recipes[j].(favorite := !recipes[j].favorite)
                              else recipes[j]
    ensures var t := ToggleFavorite(recipes, Some(id));
            t.request.Some? <==> exists j :: 0 <= j < |recipes| && recipes[j].id == id
    ensures var t := ToggleFavorite(recipes, Some(id));
            forall j :: 0 <= j < |recipes| && recipes[j].id == id ==>
              t.request == Some(Update(id, FavoritePatch(!recipes[j].favorite)))
  {
  }

  /** Toggling twice restores the original list. */
  lemma ToggleTwice(recipes: seq<Recipe>, current: Option<nat>)
    ensures ToggleFavorite(ToggleFavorite(recipes, current).recipes, current).recipes == recipes
  {
    if current.Some? && current.value != 0 {
      var t := ToggleFavorite(recipes, current);
      match FindIndex(recipes, current.value)
      case None =>
      case Some(i) =>
        assert FindIndex(t.recipes, current.value) == Some(i);
    }
  }

  /** With no current recipe the toggle changes nothing and asks nothing of
      the store. */
  lemma ToggleWithoutCurrent(recipes: seq<Recipe>)
    ensures ToggleFavorite(recipes, None) == Toggled(recipes, None)
    ensures ToggleFavorite(recipes, Some(0)) == Toggled(recipes, None)
  {
  }

  // ---------------------------------------------------------------------
  // Title derivation: the first match of /^#\s+(.+)$/m
  // ---------------------------------------------------------------------

  /** The title of a text with no title line. */
  const DefaultTitle := "無題のレシピ"

  /** Where a multiline `^` may match: the start of the text or just after
      a line terminator. */
  predicate LineStart(text: string, p: nat) {
    p == 0 || (p <= |text| && IsLineTerminator(text[p - 1]))
  }

  /** What a greedy `.+` takes from position `q`: the characters up to the
      next line terminator or the end of the text. */
  function LineFrom(text: string, q: nat): (r: string)
    requires q <= |text|
    ensures q + |r| <= |text| && r == text[q..q + |r|]
    ensures SingleLine(r)
    ensures q + |r| == |text| || IsLineTerminator(text[q + |r|])
    decreases |text| - q
  {
    if q == |text| || IsLineTerminator(text[q]) then ""
    else
      var r := [text[q]] + LineFrom(text, q + 1);
      assert r[1..] == LineFrom(text, q + 1);
      r
  }

  /** The last position in `lo..hi` whose character is no line terminator. */
  function LastInLine(text: string, lo: nat, hi: nat): (r: Option<nat>)
    requires hi <= |text|
    ensures r.Some? ==> lo <= r.value < hi && !IsLineTerminator(text[r.value])
    ensures r.Some? ==> forall j :: r.value < j < hi ==> IsLineTerminator(text[j])
    ensures r.None? ==> forall j :: lo <= j < hi ==> IsLineTerminator(text[j])
    decreases hi
  {
    if hi <= lo then None
    else if !IsLineTerminator(text[hi - 1]) then Some(hi - 1)
    else LastInLine(text, lo, hi - 1)
  }

  /** The capture of `/^#\s+(.+)$/m` when its match starts at `p`. The greedy
      `\s+` takes all whitespace after the '#', line terminators included, so
      a bare "#" line takes its title from a later line; the capture is then
      the rest of that line. Only when whitespace runs to the end of the text
      does `\s+` give characters back, and the capture is the last character
      of that run that is not a line terminator. */
  function TitleAt(text: string, p: nat): (r: Option<string>)
    requires p < |text|
    ensures r.Some? ==> |r.value| > 0 && SingleLine(r.value)
  {
    if text[p] != '#' then None
    else
      var w := SpaceRun(text, p + 1);
      if w == 0 then None
      else if p + 1 + w < |text| then Some(LineFrom(text, p + 1 + w))
      else
        match LastInLine(text, p + 2, |text|)
        case Some(j) => Some([text[j]])
        case None => None
  }

  /** The title pattern read literally at `p`: a '#', a non-empty run of
      whitespace up to `k`, and from `k` a non-empty capture up to `e` that
      holds no line terminator and ends at one or at the end of the text. */
  predicate TitleMatchAt(text: string, p: nat, k: nat, e: nat) {
    && p + 2 <= k < e <= |text|
    && text[p] == '#'
    && AllSpace(text[p + 1..k])
    && SingleLine(text[k..e])
    && (e == |text| || IsLineTerminator(text[e]))
  }

  /** `TitleAt` finds a capture exactly where the literal pattern matches,
      and its capture is the one the backtracking search settles on: the
      match whose whitespace run is longest. */
  lemma TitlePattern(text: string, p: nat)
    requires p < |text|
    ensures TitleAt(text, p).Some? <==> exists k: nat, e: nat :: TitleMatchAt(text, p, k, e)
    ensures TitleAt(text, p).Some? ==>
              exists k: nat, e: nat :: && TitleMatchAt(text, p, k, e)
                             && TitleAt(text, p).value == text[k..e]
                             && forall k2: nat, e2: nat :: TitleMatchAt(text, p, k2, e2) ==> k2 <= k
  {
    if TitleAt(text, p).Some? {
      var k, e := TitleWitness(text, p);
    }
    if exists k: nat, e: nat :: TitleMatchAt(text, p, k, e) {
      var k, e :| TitleMatchAt(text, p, k, e);
      TitleFromMatch(text, p, k, e);
    }
  }

  /** The match behind a capture, with the longest whitespace run. */
  lemma TitleWitness(text: string, p: nat) returns (k: nat, e: nat)
    requires p < |text| && TitleAt(text, p).Some?
    ensures TitleMatchAt(text, p, k, e) && TitleAt(text, p).value == text[k..e]
    ensures forall k2: nat, e2: nat :: TitleMatchAt(text, p, k2, e2) ==> k2 <= k
  {
    var w := SpaceRun(text, p + 1);
    if p + 1 + w < |text| {
      k, e := TitleWitnessInLine(text, p);
    } else {
      k, e := TitleWitnessAtEnd(text, p);
    }
  }

  /** When the whitespace run stops before the end, `\s+` keeps all of it
      and the capture is the rest of the line it stops on. */
  lemma TitleWitnessInLine(text: string, p: nat) returns (k: nat, e: nat)
    requires p < |text| && text[p] == '#'
    requires 0 < SpaceRun(text, p + 1) && p + 1 + SpaceRun(text, p + 1) < |text|
    ensures TitleMatchAt(text, p, k, e) && TitleAt(text, p) == Some(text[k..e])
    ensures forall k2: nat, e2: nat :: TitleMatchAt(text, p, k2, e2) ==> k2 <= k
  {
    k := p + 1 + SpaceRun(text, p + 1);
    e := k + |LineFrom(text, k)|;
  }

  /** When whitespace runs to the end of the text, `\s+` gives back up to the
      last character that is not a line terminator, which is the capture. */
  lemma TitleWitnessAtEnd(text: string, p: nat) returns (k: nat, e: nat)
    requires p < |text| && TitleAt(text, p).Some?
    requires p + 1 + SpaceRun(text, p + 1) == |text|
    ensures TitleMatchAt(text, p, k, e) && TitleAt(text, p).value == text[k..e]
    ensures forall k2: nat, e2: nat :: TitleMatchAt(text, p, k2, e2) ==> k2 <= k
  {
    var w := SpaceRun(text, p + 1);
    var j := LastInLine(text, p + 2, |text|).value;
    k, e := j, j + 1;
    assert text[p + 1..j] == text[p + 1..p + 1 + w][..j - p - 1];
    forall k2: nat, e2: nat | TitleMatchAt(text, p, k2, e2)
      ensures k2 <= k
    {
      assert text[k2..e2][0] == text[k2];
    }
  }

  /** Wherever the literal pattern matches, `TitleAt` finds a capture. */
  lemma TitleFromMatch(text: string, p: nat, k: nat, e: nat)
    requires TitleMatchAt(text, p, k, e)
    ensures TitleAt(text, p).Some?
  {
    SpaceRunAtLeast(text, p + 1, k - p - 1);
    assert text[k..e][0] == text[k];
  }

  /** The capture the pattern yields at each position of the text; none
      where `^` cannot match or the rest of the pattern fails. */
  function Candidates(text: string): (ms: seq<Option<string>>)
    ensures |ms| == |text|
    ensures forall q :: 0 <= q < |text| ==>
              ms[q] == if LineStart(text, q) then TitleAt(text, q) else None
  {
    seq(|text|, q requires 0 <= q < |text| => if LineStart(text, q) then TitleAt(text, q) else None)
  }

  /** The first present value from position `p` on: a search that returns its
      leftmost match. */
  function FirstSome<T>(ms: seq<Option<T>>, p: nat): Option<T>
    decreases |ms| - p
  {
    if p >= |ms| then None
    else if ms[p].Some? then ms[p]
    else FirstSome(ms, p + 1)
  }

  /** `FirstSome` finds nothing exactly when nothing is present, and
      otherwise the value at the leftmost position holding one. */
  lemma {:induction false} FirstSomeLeftmost<T>(ms: seq<Option<T>>, p0: nat)
    ensures FirstSome(ms, p0).None? <==> forall q :: p0 <= q < |ms| ==> ms[q].None?
    ensures FirstSome(ms, p0).Some? ==>
            exists p :: p0 <= p < |ms| && ms[p] == FirstSome(ms, p0)
                        && forall q :: p0 <= q < p ==> ms[q].None?
    decreases |ms| - p0
  {
    if p0 < |ms| && ms[p0].None? {
      FirstSomeLeftmost(ms, p0 + 1);
      if FirstSome(ms, p0).Some? {
        var p :| p0 + 1 <= p < |ms| && ms[p] == FirstSome(ms, p0 + 1)
                 && forall q :: p0 + 1 <= q < p ==> ms[q].None?;
        assert forall q :: p0 <= q < p ==> ms[q].None?;
      }
    }
  }

  /** The title a save derives: the capture of the leftmost match, or the
      default title. Either way a non-empty, single-line text. */
  function DeriveTitle(text: string): (title: string)
    ensures |title| > 0 && SingleLine(title)
  {
    FirstSomeLeftmost(Candidates(text), 0);
    match FirstSome(Candidates(text), 0)
    case Some(t) => t
    case None => DefaultTitle
  }

  /** The title comes from the leftmost line start at which the pattern
      matches, and is the default when it matches at no line start. */
  lemma TitleIsLeftmostMatch(text: string)
    ensures (forall q :: 0 <= q < |text| && LineStart(text, q) ==> TitleAt(text, q).None?) ==>
            DeriveTitle(text) == DefaultTitle
    ensures (exists q :: 0 <= q < |text| && LineStart(text, q) && TitleAt(text, q).Some?) ==>
            exists p :: 0 <= p < |text| && LineStart(text, p) && TitleAt(text, p) == Some(DeriveTitle(text))
                        && forall q :: 0 <= q < p && LineStart(text, q) ==> TitleAt(text, q).None?
  {
    var ms := Candidates(text);
    FirstSomeLeftmost(ms, 0);
  }

  /** "## X" is never a title line: a second '#' is not whitespace. */
  lemma DoubleHashNoTitle(text: string, p: nat)
    requires p + 1 < |text| && text[p] == '#' && text[p + 1] == '#'
    ensures TitleAt(text, p).None?
  {
    assert text[p + 1..][0] == '#';
  }

  /** A text that starts with "#", whitespace and a title line yields that
      title, whatever follows on later lines. */
  lemma LeadingTitle(space: string, t: string, rest: string)
    requires |space| > 0 && AllSpace(space)
    requires |t| > 0 && !IsSpace(t[0]) && SingleLine(t)
    requires rest == [] || IsLineTerminator(rest[0])
    ensures DeriveTitle("#" + space + t + rest) == t
  {
    var text := "#" + space + t + rest;
    TitleAtStart(space, t, rest);
    assert Candidates(text)[0] == Some(t);
  }

  /** The pattern matches at the start of such a text, capturing the title. */
  lemma TitleAtStart(space: string, t: string, rest: string)
    requires |space| > 0 && AllSpace(space)
    requires |t| > 0 && !IsSpace(t[0]) && SingleLine(t)
    requires rest == [] || IsLineTerminator(rest[0])
    ensures TitleAt("#" + space + t + rest, 0) == Some(t)
  {
    var text := "#" + space + t + rest;
    var k := |space|;
    assert text[1..1 + k] == space;
    assert text[1 + k..1 + k + |t|] == t;
    if rest != [] {
      assert text[1 + k + |t|] == rest[0];
    }
    TitleAtLine(text, k, t);
  }

  /** A '#', then `k` whitespace characters, then a line starting with a
      non-space character: the capture is that line. */
  lemma TitleAtLine(text: string, k: nat, t: string)
    requires 1 + k + |t| <= |text| && text[0] == '#'
    requires k > 0 && AllSpace(text[1..1 + k])
    requires |t| > 0 && !IsSpace(t[0]) && SingleLine(t) && text[1 + k..1 + k + |t|] == t
    requires 1 + k + |t| == |text| || IsLineTerminator(text[1 + k + |t|])
    ensures TitleAt(text, 0) == Some(t)
  {
    assert text[1 + k] == t[0];
    SpaceRunExact(text, 1, k);
    LineFromLine(text, 1 + k, t);
  }

  /** `LineFrom` takes exactly a line that ends at a terminator or the end. */
  lemma LineFromLine(text: string, q: nat, t: string)
    requires q + |t| <= |text| && text[q..q + |t|] == t && SingleLine(t)
    requires q + |t| == |text| || IsLineTerminator(text[q + |t|])
    ensures LineFrom(text, q) == t
  {
  }

  /** A bare "#" line borrows the next line as the title. */
  lemma BareHashTakesNextLine()
    ensures DeriveTitle("#\nカレー") == "カレー"
  {
    LeadingTitle("\n", "カレー", "");
    assert "#" + "\n" + "カレー" + "" == "#\nカレー";
  }

  // ---------------------------------------------------------------------
  // Saving the edit form
  // ---------------------------------------------------------------------

  /** Why a save is refused. */
  datatype SaveError = EmptyText

  /** Submitting the edit form. `idField` is the parsed hidden id field (none
      when it is empty), `now` the clock reading. The text is trimmed; an
      empty result is refused before the store is asked anything. A non-zero
      id updates that record with exactly title, text, category and update
      time; otherwise a new record is added, not a favorite. */
  function Submit(idField: Option<nat>, markdownField: string, category: string, now: int)
    : (r: Result<StoreCall, SaveError>)
    ensures r.Failure? <==> AllSpace(markdownField)
    ensures r.Success? ==> (r.value.Update? <==> idField.Some? && idField.value != 0)
  {
    TrimEmpty(markdownField);
    var markdown := Trim(markdownField);
    if markdown == "" then Failure(EmptyText)
    else
      var title := DeriveTitle(markdown);
      if idField.Some? && idField.value != 0 then
        Success(Update(idField.value, EditPatch(title, markdown, category, now)))
      else
        Success(Add(NewRecipe(title, markdown, category, now, false, now)))
  }

  /** The text a successful save sends to the store. */
  function SavedText(c: StoreCall): string {
    match c
    case Add(n) => n.markdownText
    case Update(_, p) => if p.EditPatch? then p.markdownText else ""
  }

  /** A save is refused exactly when the text is nothing but whitespace;
      otherwise the stored text is the non-empty, trimmed text, titled by
      its first title line. */
  lemma SubmitValidates(idField: Option<nat>, markdownField: string, category: string, now: int)
    ensures var r := Submit(idField, markdownField, category, now);
            r.Failure? <==> AllSpace(markdownField)
    ensures var r := Submit(idField, markdownField, category, now);
            r.Success? ==>
              && SavedText(r.value) == Trim(markdownField) != ""
              && Trim(SavedText(r.value)) == SavedText(r.value)
  {
    TrimEmpty(markdownField);
    TrimIdempotent(markdownField);
    var md := Trim(markdownField);
    var r := Submit(idField, markdownField, category, now);
    if md == "" {
      assert r == Failure(EmptyText);
    } else {
      assert SavedText(r.value) == md;
    }
  }

  /** A new record is never a favorite, carries the trimmed text and is
      created and updated at the same instant; an edit patch carries exactly
      title, text, category and update time. */
  lemma SubmitShapes(idField: Option<nat>, markdownField: string, category: string, now: int)
    requires !AllSpace(markdownField)
    ensures var r := Submit(idField, markdownField, category, now);
            var md := Trim(markdownField);
            && r.Success?
            && (idField.Some? && idField.value != 0 ==>
                  r.value == Update(idField.value, EditPatch(DeriveTitle(md), md, category, now)))
            && (idField.None? || idField.value == 0 ==>
                  r.value.Add? && !r.value.record.favorite
                  && r.value.record.markdownText == md
                  && r.value.record.createdAt == r.value.record.updatedAt == now)
  {
    TrimEmpty(markdownField);
  }

  /** Saving a stored text again, unedited, keeps both the text and the
      title. */
  lemma ResaveKeepsText(id: nat, text: string, category: string, before: int, now: int)
    requires id != 0 && !AllSpace(text)
    ensures match Submit(None, text, category, before)
            case Success(Add(n)) =>
              Submit(Some(id), n.markdownText, category, now)
                == Success(Update(id, EditPatch(n.title, n.markdownText, category, now)))
            case _ => false
  {
    TrimEmpty(text);
    TrimIdempotent(text);
  }
}
