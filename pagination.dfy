/** The "all achievements" screen of achievements.go (and its copy under the
    old package name, achivements.go): the catalogue cut into pages of eight
    and a page counter moved by key presses. */
module Pagination {
  import Events
  import Rules
  import Achivements

  const PerPage: nat := 8

  /** The pages read back in order. Defined on the last page, as the loop
      that builds them appends. */
  function Flatten<A>(pages: seq<seq<A>>): seq<A>
    decreases |pages|
  {
    if pages == [] then []
    else Flatten(pages[..|pages| - 1]) + pages[|pages| - 1]
  }

  /** Every page holds 1 to `PerPage` entries, and every page but the last
      holds exactly `PerPage`. */
  predicate WellFormed<A>(pages: seq<seq<A>>) {
    forall i :: 0 <= i < |pages| ==>
      1 <= |pages[i]| <= PerPage && (i < |pages| - 1 ==> |pages[i]| == PerPage)
  }

  lemma FlattenSnoc<A>(pages: seq<seq<A>>, p: seq<A>)
    ensures Flatten(pages + [p]) == Flatten(pages) + p
  {
    assert (pages + [p])[..|pages|] == pages;
  }

  /** The constructor's loop: fill `page`, move it to `pages` when it holds
      `PerPage` entries, and keep a final partial page if there is one. */
  method BuildPages<A>(catalogue: seq<A>) returns (pages: seq<seq<A>>)
    ensures Flatten(pages) == catalogue
    ensures WellFormed(pages)
  {
    pages := [];
    var page: seq<A> := [];
    var i := 0;
    while i < |catalogue|
      invariant 0 <= i <= |catalogue|
      invariant Flatten(pages) + page == catalogue[..i]
      invariant forall k :: 0 <= k < |pages| ==> |pages[k]| == PerPage
      invariant |page| < PerPage
    {
      assert catalogue[..i + 1] == catalogue[..i] + [catalogue[i]];
      page := page + [catalogue[i]];
      if |page| == PerPage {
        FlattenSnoc(pages, page);
        pages := pages + [page];
        page := [];
      }
      i := i + 1;
    }
    assert catalogue[..i] == catalogue;
    if |page| > 0 {
      FlattenSnoc(pages, page);
      pages := pages + [page];
    }
  }

  /** Pages that are all full hold `PerPage` entries each. */
  lemma {:induction false} FullPagesLength<A>(pages: seq<seq<A>>)
    requires forall i :: 0 <= i < |pages| ==> |pages[i]| == PerPage
    ensures |Flatten(pages)| == PerPage * |pages|
    decreases |pages|
  {
    if pages != [] {
      FullPagesLength(pages[..|pages| - 1]);
    }
  }

  /** The number of pages is the catalogue size divided by eight, rounded
      up; in particular an empty catalogue has no pages. */
  lemma PageCount<A>(pages: seq<seq<A>>)
    requires WellFormed(pages)
    ensures |pages| == (|Flatten(pages)| + PerPage - 1) / PerPage
  {
    if pages != [] {
      var init := pages[..|pages| - 1];
      var last := pages[|pages| - 1];
      FullPagesLength(init);
      var k := |init|;
      assert |Flatten(pages)| + PerPage - 1 == PerPage * (k + 1) + (|last| - 1);
    }
  }

  /** Page `i` shows the catalogue entries from index `PerPage * i` on. */
  lemma {:induction false} PageContents<A>(pages: seq<seq<A>>, i: int)
    requires WellFormed(pages) && 0 <= i < |pages|
    ensures PerPage * i + |pages[i]| <= |Flatten(pages)|
    ensures pages[i] == Flatten(pages)[PerPage * i .. PerPage * i + |pages[i]|]
    decreases |pages|
  {
    var init := pages[..|pages| - 1];
    assert WellFormed(init);
    if i < |init| {
      PageContents(init, i);
      assert init[i] == pages[i];
    } else {
      FullPagesLength(init);
    }
  }

  /** A message reaching `Update`: a key press, by its name, or anything else. */
  datatype Msg = KeyMsg(key: string) | OtherMsg

  /** What `Update` hands back to the runtime besides the model. */
  datatype Command = NoCommand | GoToHome

  const ForwardKeys: set<string> := {"down", "right", "tab", "n", "j", "l"}
  const BackwardKeys: set<string> := {"up", "left", "p", "h", "k"}
  const HomeKey: string := "home"
  const QuitKeys: set<string> := {"q", "esc", "enter"}

  /** The page `Update` leaves the screen on, out of `count` pages. */
  function NextPage(page: int, count: int, msg: Msg): int {
    match msg
    case OtherMsg => page
    case KeyMsg(key) =>
      if key in ForwardKeys then (if page < count - 1 then page + 1 else page)
      else if key in BackwardKeys then (if page > 0 then page - 1 else page)
      else if key == HomeKey then 0
      else page
  }

  /** The command `Update` returns. */
  function Reply(msg: Msg): Command {
    if msg.KeyMsg? && msg.key in QuitKeys then GoToHome else NoCommand
  }

  /** The counter stays on an existing page (on 0 when there are none). */
  predicate InRange(page: int, count: int) {
    0 <= page && (page < count || page == 0)
  }

  /** Navigation keeps the page in range, moves it by at most one (except
      `home`, which returns to the first page), and a quit key or any other
      message leaves it where it was. */
  lemma NavigationBounds(page: int, count: int, msg: Msg)
    requires InRange(page, count)
    ensures InRange(NextPage(page, count, msg), count)
    ensures msg != KeyMsg(HomeKey) ==> -1 <= NextPage(page, count, msg) - page <= 1
    ensures msg == KeyMsg(HomeKey) ==> NextPage(page, count, msg) == 0
    ensures (msg.OtherMsg? || msg.key in QuitKeys) ==> NextPage(page, count, msg) == page
    ensures Reply(msg) == GoToHome <==> msg.KeyMsg? && msg.key in QuitKeys
  {
  }

  /** The page after a sequence of messages. */
  function Replay(page: int, count: int, msgs: seq<Msg>): int
    decreases |msgs|
  {
    if msgs == [] then page
    else NextPage(Replay(page, count, msgs[..|msgs| - 1]), count, msgs[|msgs| - 1])
  }

  /** Pressing a forward key `n` times from the first page reaches page `n`,
      and stops on the last page. */
  lemma {:induction false} ForwardStopsAtLast(count: int, key: string, n: nat)
    requires count >= 1 && key in ForwardKeys
    ensures Replay(0, count, seq(n, _ => KeyMsg(key))) == if n < count then n else count - 1
    decreases n
  {
    if n > 0 {
      var msgs := seq(n, _ => KeyMsg(key));
      assert msgs[..n - 1] == seq(n - 1, _ => KeyMsg(key));
      ForwardStopsAtLast(count, key, n - 1);
    }
  }

  /** Whatever keys are pressed, the counter stays in range. */
  lemma {:induction false} ReplayInRange(page: int, count: int, msgs: seq<Msg>)
    requires InRange(page, count)
    ensures InRange(Replay(page, count, msgs), count)
    decreases |msgs|
  {
    if msgs != [] {
      ReplayInRange(page, count, msgs[..|msgs| - 1]);
      NavigationBounds(Replay(page, count, msgs[..|msgs| - 1]), count, msgs[|msgs| - 1]);
    }
  }

  /** `showAllAchievementsModel`: the history, the pages and the page shown.
      `catalogue` records the list the pages were cut from. */
  class ShowAllModel<E, A> {
    var events: seq<E>
    var pages: seq<seq<A>>
    var page: int
    ghost const catalogue: seq<A>

    ghost predicate Valid()
      reads this
    {
      WellFormed(pages) && Flatten(pages) == catalogue && InRange(page, |pages|)
    }

    /** The constructor `NewShowAll...Model`: pages cut from the catalogue,
        the first page shown. */
    constructor (events: seq<E>, catalogue: seq<A>)
      ensures Valid()
      ensures this.events == events && this.catalogue == catalogue && page == 0
    {
      this.events := events;
      this.catalogue := catalogue;
      var pages := BuildPages(catalogue);
      this.pages := pages;
      this.page := 0;
    }

    /** `Update`: only the page counter changes. */
    method Update(msg: Msg) returns (cmd: Command)
      requires Valid()
      modifies this`page
      ensures Valid()
      ensures page == NextPage(old(page), |pages|, msg)
      ensures cmd == Reply(msg)
    {
      cmd := NoCommand;
      match msg {
        case OtherMsg =>
        case KeyMsg(key) =>
          if key in ForwardKeys {
            if page < |pages| - 1 {
              page := page + 1;
            }
          } else if key in BackwardKeys {
            if page > 0 {
              page := page - 1;
            }
          } else if key == HomeKey {
            page := 0;
          } else if key in QuitKeys {
            cmd := GoToHome;
          }
      }
      NavigationBounds(old(page), |pages|, msg);
    }

    /** The entries `View` lists: `pages[page]`, which exists only when the
        catalogue is not empty. */
    function CurrentPage(): (r: seq<A>)
      reads this
      requires Valid() && pages != []
      ensures 1 <= |r| <= PerPage
      ensures PerPage * page + |r| <= |catalogue|
      ensures r == catalogue[PerPage * page .. PerPage * page + |r|]
    {
      PageContents(pages, page);
      pages[page]
    }
  }

  /** `NewShowAllAchievementsModel`, over the current catalogue. */
  method NewShowAllAchievementsModel(events: seq<Events.HistoryEvent>)
    returns (m: ShowAllModel<Events.HistoryEvent, Rules.Achievement>)
    ensures fresh(m) && m.Valid() && m.page == 0
    ensures m.events == events && m.catalogue == Rules.SampleAchievements()
  {
    m := new ShowAllModel(events, Rules.SampleAchievements());
  }

  /** `NewShowAllAchivementsModel`, over the legacy catalogue. */
  method NewShowAllAchivementsModel(events: seq<Achivements.HistoryEvent>)
    returns (m: ShowAllModel<Achivements.HistoryEvent, Achivements.Achivement>)
    ensures fresh(m) && m.Valid() && m.page == 0
    ensures m.events == events && m.catalogue == Achivements.Catalogue
  {
    m := new ShowAllModel(events, Achivements.Catalogue);
  }
}
