/** The pure logic of `src/components/MailPage.tsx`: the search filter over
    the catalog, the favourite-id set computed on mount, and its update when
    a star is toggled. Case folding (`toLowerCase`) is a parameter `lower`
    about which nothing is assumed. */
module MailPage {
  import opened Sequences
  import opened MailData

  /** `q` occurs in `s` starting at position `i`. */
  ghost predicate OccursAt(s: string, q: string, i: int) {
    0 <= i && i + |q| <= |s| && s[i..i + |q|] == q
  }

  ghost predicate IsSubstring(q: string, s: string) {
    exists i :: OccursAt(s, q, i)
  }

  /** `s.includes(q)`. */
  function Includes(s: string, q: string): (r: bool)
    ensures r <==> IsSubstring(q, s)
    decreases |s|
  {
    if |q| > |s| then false
    else if s[..|q|] == q then
      assert OccursAt(s, q, 0);
      true
    else
      var r := Includes(s[1..], q);
      assert IsSubstring(q, s[1..]) ==> IsSubstring(q, s) by {
        if IsSubstring(q, s[1..]) {
          var i :| OccursAt(s[1..], q, i);
          assert s[1..][i..i + |q|] == s[i + 1..i + 1 + |q|];
          assert OccursAt(s, q, i + 1);
        }
      }
      assert IsSubstring(q, s) ==> IsSubstring(q, s[1..]) by {
        if IsSubstring(q, s) {
          var i :| OccursAt(s, q, i);
          assert i != 0;
          assert s[1..][i - 1..i - 1 + |q|] == s[i..i + |q|];
          assert OccursAt(s[1..], q, i - 1);
        }
      }
      r
  }

  /** The search predicate of `filteredMails` for an already lower-cased
      query: name, then description when there is one, then url. */
  function Matches(mail: TempMail, query: string, lower: string -> string): (r: bool)
    ensures r <==> MatchesBySubstring(mail, query, lower)
  {
    Includes(lower(mail.name), query)
    || (mail.description.Some? && Includes(lower(mail.description.value), query))
    || Includes(lower(mail.url), query)
  }

  /** The same predicate stated with substrings rather than `includes`. */
  ghost predicate MatchesBySubstring(mail: TempMail, query: string, lower: string -> string) {
    IsSubstring(query, lower(mail.name))
    || (mail.description.Some? && IsSubstring(query, lower(mail.description.value)))
    || IsSubstring(query, lower(mail.url))
  }

  /** `filteredMails` for the debounced query. */
  function FilteredMails(catalog: seq<TempMail>, query: string, lower: string -> string): (r: seq<TempMail>)
    ensures |query| == 0 ==> r == catalog
    ensures Subseq(r, catalog)
    ensures |query| > 0 ==>
              forall m :: m in r <==> m in catalog && MatchesBySubstring(m, lower(query), lower)
    ensures |query| > 0 ==>
              forall m :: multiset(r)[m] ==
                            if MatchesBySubstring(m, lower(query), lower) then multiset(catalog)[m] else 0
  {
    if |query| == 0 then
      assert Subseq(catalog, catalog) by { SubseqRefl(catalog); }
      catalog
    else
      var q := lower(query);
      Filter(catalog, (m: TempMail) => Matches(m, q, lower))
  }

  /** A mail without a description can match only through its name or url. */
  lemma NoDescriptionMatch(mail: TempMail, query: string, lower: string -> string)
    requires mail.description.None?
    ensures Matches(mail, query, lower) <==>
              IsSubstring(query, lower(mail.name)) || IsSubstring(query, lower(mail.url))
  {
  }

  /** The ids of catalog entries that `isFavorite` reports, as the mount
      effect collects them into a `Set`. */
  function InitialFavorites(catalog: seq<TempMail>, st: FavStore): (r: set<string>)
    ensures forall id :: id in r <==> HasId(catalog, id) && HasId(GetFavorites(st), id)
  {
    if |catalog| == 0 then {}
    else
      var rest := InitialFavorites(catalog[1..], st);
      assert forall id :: HasId(catalog, id) <==> catalog[0].id == id || HasId(catalog[1..], id) by {
        forall id
          ensures HasId(catalog, id) ==> catalog[0].id == id || HasId(catalog[1..], id)
        {
          if HasId(catalog, id) && catalog[0].id != id {
            var k :| 0 <= k < |catalog| && catalog[k].id == id;
            assert catalog[1..][k - 1].id == id;
          }
        }
        forall id | HasId(catalog[1..], id)
          ensures HasId(catalog, id)
        {
          var k :| 0 <= k < |catalog| - 1 && catalog[1..][k].id == id;
          assert catalog[k + 1].id == id;
        }
      }
      (if IsFavorite(st, catalog[0].id) then {catalog[0].id} else {}) + rest
  }

  /** The page's favourite-id set and the storage after a toggle. */
  datatype StarToggled = StarToggled(favorites: set<string>, store: FavStore)

  /** `handleToggleFavorite`: toggle in storage, then add or delete the id in
      the page's set according to what `toggleFavorite` returned. */
  function HandleToggleFavorite(favorites: set<string>, st: FavStore, mail: TempMail, writeOk: bool): (r: StarToggled)
    ensures mail.id in r.favorites <==> !IsFavorite(st, mail.id)
    ensures forall id :: id != mail.id ==> (id in r.favorites <==> id in favorites)
    ensures r.store == ToggleFavorite(st, mail, writeOk).store
  {
    var t := ToggleFavorite(st, mail, writeOk);
    var next := if t.nowFavorite then favorites + {mail.id} else favorites - {mail.id};
    StarToggled(next, t.store)
  }

  /** The page's set mirrors storage: it holds exactly the catalog ids that
      are favourites. */
  ghost predicate Mirrors(favorites: set<string>, catalog: seq<TempMail>, st: FavStore) {
    favorites == InitialFavorites(catalog, st)
  }

  /** When the set mirrors storage with distinct stored ids and the save
      lands, toggling a catalog mail keeps the set mirroring storage. */
  lemma ToggleKeepsMirror(favorites: set<string>, catalog: seq<TempMail>, st: FavStore, mail: TempMail)
    requires st.Available?
    requires UniqueIds(GetFavorites(st))
    requires HasId(catalog, mail.id)
    requires Mirrors(favorites, catalog, st)
    ensures var r := HandleToggleFavorite(favorites, st, mail, true);
            Mirrors(r.favorites, catalog, r.store)
  {
    var r := HandleToggleFavorite(favorites, st, mail, true);
    ToggleFlipsMembership(st, mail, true);
    var want := InitialFavorites(catalog, r.store);
    forall id
      ensures id in r.favorites <==> id in want
    {
      if id != mail.id {
        assert IsFavorite(r.store, id) <==> IsFavorite(st, id);
      }
    }
  }

  /** A stored favourite whose id is not in the catalog never enters the set. */
  lemma ForeignFavoritesIgnored(catalog: seq<TempMail>, st: FavStore, mail: TempMail)
    requires mail in GetFavorites(st)
    requires !HasId(catalog, mail.id)
    ensures mail.id !in InitialFavorites(catalog, st)
  {
  }
}
