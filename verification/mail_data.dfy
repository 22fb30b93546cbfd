/** The favourites store of `src/lib/mailData.ts`: an insertion-ordered list
    of mail services, persisted as one JSON array under the key
    `mail_favorites`. The storage is passed in and handed back explicitly. */
module MailData {
  import opened Wrappers
  import opened Storage
  import opened Sequences

  /** A temporary-mail service; `description` is optional. */
  datatype TempMail = TempMail(id: string, name: string, url: string, description: Option<string>)

  type FavStore = Store<seq<TempMail>>

  /** The fixed catalog `tempMailList`, read by the pages and never written. */
  const TEMP_MAIL_LIST: seq<TempMail> := [
    TempMail("1", "Fake Mail Generator", "https://www.fakemailgenerator.com/", Some("批量生成")),
    TempMail("2", "10 Minute Mail", "https://10minutemail.com/", Some("10分钟有效期")),
    TempMail("3", "Guerrilla Mail", "https://www.guerrillamail.com/", Some("简单快速")),
    TempMail("4", "Temp Mail", "https://temp-mail.org/", Some("自动刷新收件箱")),
    TempMail("5", "Mohmal", "https://www.mohmal.com/zh", Some("支持阿拉伯语")),
    TempMail("6", "TempMail.plus", "https://tempmail.plus/", Some("现代化界面")),
    TempMail("7", "Maildrop", "https://maildrop.cc/", Some("无需注册"))
  ]

  /** Some element of `favs` carries `id`. */
  ghost predicate HasId(favs: seq<TempMail>, id: string) {
    exists i :: 0 <= i < |favs| && favs[i].id == id
  }

  /** No two elements of `favs` share an id. */
  ghost predicate UniqueIds(favs: seq<TempMail>) {
    forall i, j :: 0 <= i < j < |favs| ==> favs[i].id != favs[j].id
  }

  /** The catalog's ids are distinct and every entry has a description, so
      the catalog is a list the toggle lemmas apply to and its search always
      consults the description. */
  lemma CatalogWellFormed()
    ensures UniqueIds(TEMP_MAIL_LIST)
    ensures forall i :: 0 <= i < |TEMP_MAIL_LIST| ==> TEMP_MAIL_LIST[i].description.Some?
  {
  }

  /** `i` is the position of the first element of `favs` carrying `id`. */
  ghost predicate FirstWithId(favs: seq<TempMail>, id: string, i: int) {
    0 <= i < |favs| && favs[i].id == id && forall j :: 0 <= j < i ==> favs[j].id != id
  }

  /** `getFavorites`: the stored list, or the empty list when there is no
      storage, nothing stored, or the stored text does not parse. */
  function GetFavorites(st: FavStore): (r: seq<TempMail>)
    ensures st.Unavailable? ==> r == []
    ensures st.Available? && !st.slot.Stored? ==> r == []
    ensures st.Available? && st.slot.Stored? ==> r == st.slot.value
  {
    match Parse(st)
    case Some(favs) => favs
    case None => []
  }

  /** `saveFavorites`: a write whose failure is swallowed. */
  function SaveFavorites(st: FavStore, favs: seq<TempMail>, writeOk: bool): (st': FavStore)
    ensures WriteLands(st, writeOk) ==> Parse(st') == Some(favs)
    ensures WriteLands(st, writeOk) ==> GetFavorites(st') == favs
    ensures !WriteLands(st, writeOk) ==> st' == st
  {
    SetItem(st, favs, writeOk)
  }

  /** `favs.some(item => item.id === id)`. */
  function SomeHasId(favs: seq<TempMail>, id: string): (r: bool)
    ensures r <==> HasId(favs, id)
  {
    if |favs| == 0 then false
    else if favs[0].id == id then true
    else
      var r := SomeHasId(favs[1..], id);
      assert HasId(favs[1..], id) ==> HasId(favs, id) by {
        if HasId(favs[1..], id) {
          var k :| 0 <= k < |favs| - 1 && favs[1..][k].id == id;
          assert favs[k + 1].id == id;
        }
      }
      r
  }

  /** `favs.findIndex(item => item.id === id)`: the first position carrying
      `id`, or -1 when there is none. */
  function FindIndex(favs: seq<TempMail>, id: string): (r: int)
    ensures -1 <= r < |favs|
    ensures r >= 0 ==> FirstWithId(favs, id, r)
    ensures r == -1 <==> !HasId(favs, id)
  {
    if |favs| == 0 then -1
    else if favs[0].id == id then 0
    else
      var k := FindIndex(favs[1..], id);
      assert forall j :: 1 <= j < |favs| ==> favs[j] == favs[1..][j - 1];
      if k == -1 then -1 else k + 1
  }

  /** `isFavorite`. */
  function IsFavorite(st: FavStore, id: string): (r: bool)
    ensures r <==> HasId(GetFavorites(st), id)
  {
    SomeHasId(GetFavorites(st), id)
  }

  /** The outcome of a toggle on the list itself: whether the mail is now a
      favourite, and the list to be saved. */
  datatype ListToggled = ListToggled(nowFavorite: bool, favorites: seq<TempMail>)

  /** The list work of `toggleFavorite`: splice out the first element with
      `mail.id` if there is one, else push `mail` at the end. */
  function ToggleList(favs: seq<TempMail>, mail: TempMail): (r: ListToggled)
    ensures r.nowFavorite <==> !HasId(favs, mail.id)
    ensures r.nowFavorite ==> r.favorites == favs + [mail]
    ensures !r.nowFavorite ==>
              exists i :: FirstWithId(favs, mail.id, i) && r.favorites == favs[..i] + favs[i + 1..]
  {
    var index := FindIndex(favs, mail.id);
    if index > -1 then
      assert FirstWithId(favs, mail.id, index);
      ListToggled(false, favs[..index] + favs[index + 1..])
    else
      ListToggled(true, favs + [mail])
  }

  /** What `toggleFavorite` returns (true: now a favourite) and the storage it leaves. */
  datatype Toggled = Toggled(nowFavorite: bool, store: FavStore)

  /** `toggleFavorite`: toggle the stored list and save it; the return value
      does not depend on whether the save lands. */
  function ToggleFavorite(st: FavStore, mail: TempMail, writeOk: bool): (r: Toggled)
    ensures r.nowFavorite <==> !HasId(GetFavorites(st), mail.id)
    ensures !WriteLands(st, writeOk) ==> r.store == st
    ensures WriteLands(st, writeOk) ==> Parse(r.store) == Some(ToggleList(GetFavorites(st), mail).favorites)
    ensures WriteLands(st, writeOk) ==> GetFavorites(r.store) == ToggleList(GetFavorites(st), mail).favorites
  {
    var t := ToggleList(GetFavorites(st), mail);
    Toggled(t.nowFavorite, SaveFavorites(st, t.favorites, writeOk))
  }

  /** `removeFavorite`: keep only the elements whose id differs, and save. */
  function RemoveFavorite(st: FavStore, id: string, writeOk: bool): (st': FavStore)
    ensures !WriteLands(st, writeOk) ==> st' == st
    ensures st'.Available? <==> st.Available?
    ensures WriteLands(st, writeOk) ==> Parse(st').Some?
    ensures WriteLands(st, writeOk) ==> !HasId(GetFavorites(st'), id)
    ensures WriteLands(st, writeOk) ==> Subseq(GetFavorites(st'), GetFavorites(st))
    ensures WriteLands(st, writeOk) ==>
              forall m :: multiset(GetFavorites(st'))[m] ==
                            if m.id == id then 0 else multiset(GetFavorites(st))[m]
  {
    SaveFavorites(st, Filter(GetFavorites(st), (item: TempMail) => item.id != id), writeOk)
  }

  /** Appending a mail adds its id and no other. */
  lemma AppendIds(favs: seq<TempMail>, mail: TempMail)
    ensures forall id :: HasId(favs + [mail], id) <==> HasId(favs, id) || id == mail.id
  {
    var after := favs + [mail];
    assert after[|favs|] == mail;
    forall id | HasId(after, id) && id != mail.id
      ensures HasId(favs, id)
    {
      var k :| 0 <= k < |after| && after[k].id == id;
      assert favs[k] == after[k];
    }
    forall id | HasId(favs, id)
      ensures HasId(after, id)
    {
      var k :| 0 <= k < |favs| && favs[k].id == id;
      assert after[k] == favs[k];
    }
  }

  /** Cutting out position `i`, the only element carrying its id, removes
      that id and no other. */
  lemma RemoveAtIds(favs: seq<TempMail>, i: nat)
    requires i < |favs|
    requires UniqueIds(favs)
    ensures forall id :: HasId(favs[..i] + favs[i + 1..], id) <==> HasId(favs, id) && id != favs[i].id
  {
    var after := favs[..i] + favs[i + 1..];
    assert forall k :: 0 <= k < |after| ==> after[k] == favs[if k < i then k else k + 1];
    forall id | HasId(after, id)
      ensures HasId(favs, id) && id != favs[i].id
    {
      var k :| 0 <= k < |after| && after[k].id == id;
      var src := if k < i then k else k + 1;
      assert favs[src].id == id;
    }
    forall id | HasId(favs, id) && id != favs[i].id
      ensures HasId(after, id)
    {
      var k :| 0 <= k < |favs| && favs[k].id == id;
      assert k != i;
      var dst := if k < i then k else k - 1;
      assert after[dst].id == id;
    }
  }

  /** Appending a mail whose id is absent keeps ids distinct. */
  lemma AppendKeepsIdsUnique(favs: seq<TempMail>, mail: TempMail)
    requires UniqueIds(favs)
    requires !HasId(favs, mail.id)
    ensures UniqueIds(favs + [mail])
  {
    var after := favs + [mail];
    assert forall k :: 0 <= k < |favs| ==> after[k] == favs[k] && favs[k].id != mail.id;
  }

  /** Cutting out one position keeps ids distinct. */
  lemma RemoveAtKeepsIdsUnique(favs: seq<TempMail>, i: nat)
    requires i < |favs|
    requires UniqueIds(favs)
    ensures UniqueIds(favs[..i] + favs[i + 1..])
  {
    var after := favs[..i] + favs[i + 1..];
    assert forall k :: 0 <= k < |after| ==> after[k] == favs[if k < i then k else k + 1];
  }

  /** On the list: toggling an absent id adds it; with distinct ids,
      toggling a present id removes it. No other id changes membership, and
      distinct ids stay distinct. */
  lemma ToggleListIds(favs: seq<TempMail>, mail: TempMail)
    requires UniqueIds(favs)
    ensures var r := ToggleList(favs, mail);
            UniqueIds(r.favorites) &&
            HasId(r.favorites, mail.id) == r.nowFavorite &&
            forall id :: id != mail.id ==> (HasId(r.favorites, id) <==> HasId(favs, id))
  {
    var r := ToggleList(favs, mail);
    if r.nowFavorite {
      AppendIds(favs, mail);
      AppendKeepsIdsUnique(favs, mail);
    } else {
      var i :| FirstWithId(favs, mail.id, i) && r.favorites == favs[..i] + favs[i + 1..];
      RemoveAtIds(favs, i);
      RemoveAtKeepsIdsUnique(favs, i);
    }
  }

  /** With distinct ids in storage and a save that lands, the mail's id is a
      favourite afterwards iff `toggleFavorite` returned true, and no other
      id changes membership. */
  lemma ToggleFlipsMembership(st: FavStore, mail: TempMail, writeOk: bool)
    requires WriteLands(st, writeOk)
    requires UniqueIds(GetFavorites(st))
    ensures IsFavorite(ToggleFavorite(st, mail, writeOk).store, mail.id)
            == ToggleFavorite(st, mail, writeOk).nowFavorite
    ensures forall id :: id != mail.id ==>
              (IsFavorite(ToggleFavorite(st, mail, writeOk).store, id) <==> IsFavorite(st, id))
  {
    ToggleListIds(GetFavorites(st), mail);
  }

  /** Toggling never creates two favourites with the same id. */
  lemma ToggleKeepsIdsUnique(st: FavStore, mail: TempMail, writeOk: bool)
    requires UniqueIds(GetFavorites(st))
    ensures UniqueIds(GetFavorites(ToggleFavorite(st, mail, writeOk).store))
  {
    ToggleListIds(GetFavorites(st), mail);
  }

  /** Removing never creates two favourites with the same id. */
  lemma RemoveKeepsIdsUnique(st: FavStore, id: string, writeOk: bool)
    requires UniqueIds(GetFavorites(st))
    ensures UniqueIds(GetFavorites(RemoveFavorite(st, id, writeOk)))
  {
    if WriteLands(st, writeOk) {
      SubseqKeepsIdsUnique(GetFavorites(RemoveFavorite(st, id, writeOk)), GetFavorites(st));
    }
  }

  lemma {:induction false} SubseqKeepsIdsUnique(a: seq<TempMail>, b: seq<TempMail>)
    requires Subseq(a, b)
    requires UniqueIds(b)
    ensures UniqueIds(a)
    decreases |b|
  {
    if |a| > 0 {
      assert UniqueIds(b[1..]) by {
        assert forall k :: 0 <= k < |b| - 1 ==> b[1..][k] == b[k + 1];
      }
      if a[0] == b[0] && Subseq(a[1..], b[1..]) {
        SubseqKeepsIdsUnique(a[1..], b[1..]);
        SubseqMembers(a[1..], b[1..]);
        forall j | 0 < j < |a|
          ensures a[0].id != a[j].id
        {
          assert a[j] == a[1..][j - 1];
          assert a[j] in b[1..];
          var k :| 0 <= k < |b| - 1 && b[1..][k] == a[j];
          assert b[k + 1] == a[j];
        }
      } else {
        SubseqKeepsIdsUnique(a, b[1..]);
      }
    }
  }

  /** Toggling the same mail twice, starting from a state where its id is
      absent, gives back the list read before: the first call returns true,
      and the second, when the saves land, false. A failed save leaves the
      list as it was, so the second call then returns true again. When the
      list was stored, the storage itself comes back unchanged. */
  lemma ToggleTwiceRestores(st: FavStore, mail: TempMail, writeOk: bool)
    requires !IsFavorite(st, mail.id)
    ensures var once := ToggleFavorite(st, mail, writeOk);
            var twice := ToggleFavorite(once.store, mail, writeOk);
            once.nowFavorite && (WriteLands(st, writeOk) ==> !twice.nowFavorite) &&
            GetFavorites(twice.store) == GetFavorites(st) &&
            (st.Available? && st.slot.Stored? ==> twice.store == st)
  {
    var favs := GetFavorites(st);
    var once := ToggleFavorite(st, mail, writeOk);
    if WriteLands(st, writeOk) {
      var grown := favs + [mail];
      assert grown[|favs|].id == mail.id;
      var twice := ToggleFavorite(once.store, mail, writeOk);
      var i :| FirstWithId(grown, mail.id, i) && ToggleList(grown, mail).favorites == grown[..i] + grown[i + 1..];
      assert i == |favs|;
      assert grown[..i] == favs;
    }
  }

  /** After a `removeFavorite(id)` whose save does not throw the id is not a
      favourite, whether or not storage exists. */
  lemma RemoveThenNotFavorite(st: FavStore, id: string)
    ensures !IsFavorite(RemoveFavorite(st, id, true), id)
  {
  }

  /** `removeFavorite` of an absent id leaves the list as it reads. */
  lemma RemoveAbsentIsNoOp(st: FavStore, id: string, writeOk: bool)
    requires !IsFavorite(st, id)
    ensures GetFavorites(RemoveFavorite(st, id, writeOk)) == GetFavorites(st)
  {
    var favs := GetFavorites(st);
    FilterKeepsAll(favs, (item: TempMail) => item.id != id);
  }

  /** Removing the same id twice is removing it once. */
  lemma RemoveIdempotent(st: FavStore, id: string, writeOk: bool)
    ensures var once := RemoveFavorite(st, id, writeOk);
            GetFavorites(RemoveFavorite(once, id, writeOk)) == GetFavorites(once)
  {
    var once := RemoveFavorite(st, id, writeOk);
    if !IsFavorite(once, id) {
      RemoveAbsentIsNoOp(once, id, writeOk);
    }
  }

  /** Whether the save succeeds has no bearing on what `toggleFavorite`
      returns; a failed save leaves storage untouched. */
  lemma ToggleResultIgnoresWriteFailure(st: FavStore, mail: TempMail)
    ensures ToggleFavorite(st, mail, false).nowFavorite == ToggleFavorite(st, mail, true).nowFavorite
    ensures ToggleFavorite(st, mail, false).store == st
  {
  }

  /** The list after `n` toggles of the same mail. */
  function ToggleListRepeatedly(favs: seq<TempMail>, mail: TempMail, n: nat): seq<TempMail>
    decreases n
  {
    if n == 0 then favs else ToggleListRepeatedly(ToggleList(favs, mail).favorites, mail, n - 1)
  }

  /** With distinct ids, membership of `mail.id` alternates under repeated
      toggling: after an even number of toggles it is what it was, after an
      odd number it is flipped. Ids stay distinct throughout. When every save
      lands, this list is what storage holds (`ToggleFavorite`). */
  lemma {:induction false} ToggleAlternates(favs: seq<TempMail>, mail: TempMail, n: nat)
    requires UniqueIds(favs)
    ensures HasId(ToggleListRepeatedly(favs, mail, n), mail.id) == (HasId(favs, mail.id) != (n % 2 == 1))
    ensures UniqueIds(ToggleListRepeatedly(favs, mail, n))
    decreases n
  {
    if n > 0 {
      var next := ToggleList(favs, mail).favorites;
      ToggleListIds(favs, mail);
      ToggleAlternates(next, mail, n - 1);
      ParityStep(n);
    }
  }

  lemma ParityStep(n: nat)
    requires n > 0
    ensures ((n - 1) % 2 == 1) == (n % 2 == 0)
  {
  }

  /** Two catalog items A (id 1) and B (id 2), from empty storage: toggling
      A, B, A and then removing id 2 ends with no favourites. */
  lemma ToggleScenario(a: TempMail, b: TempMail)
    requires a.id == "1" && b.id == "2"
    ensures var s0: FavStore := Available(Absent);
            var t1 := ToggleFavorite(s0, a, true);
            var t2 := ToggleFavorite(t1.store, b, true);
            var t3 := ToggleFavorite(t2.store, a, true);
            t1.nowFavorite && GetFavorites(t1.store) == [a] &&
            t2.nowFavorite && GetFavorites(t2.store) == [a, b] &&
            !t3.nowFavorite && GetFavorites(t3.store) == [b] &&
            GetFavorites(RemoveFavorite(t3.store, "2", true)) == []
  {
    var s0: FavStore := Available(Absent);
    var t1 := ToggleFavorite(s0, a, true);
    assert GetFavorites(t1.store) == [a];
    assert !HasId([a], "2");
    var t2 := ToggleFavorite(t1.store, b, true);
    assert [a] + [b] == [a, b];
    assert GetFavorites(t2.store) == [a, b];
    assert [a, b][0].id == "1";
    var t3 := ToggleFavorite(t2.store, a, true);
    var i :| FirstWithId([a, b], a.id, i) && GetFavorites(t3.store) == [a, b][..i] + [a, b][i + 1..];
    assert i == 0;
    assert [a, b][1..] == [b];
    var last := GetFavorites(RemoveFavorite(t3.store, "2", true));
    assert multiset(last)[b] == 0;
  }
}
