/** The pure logic of `src/components/FavoritesPage.tsx`: the displayed
    favourites list and the delete-confirm dialog `{isOpen, mail}`. */
module FavoritesPage {
  import opened Wrappers
  import opened Storage
  import opened Sequences
  import opened MailData

  datatype DeleteConfirm = DeleteConfirm(isOpen: bool, mail: Option<TempMail>)

  /** The dialog's closed state, `{isOpen: false, mail: null}`. */
  const CLOSED: DeleteConfirm := DeleteConfirm(false, None)

  /** The page: displayed list, dialog state, and the storage behind them. */
  datatype Page = Page(favorites: seq<TempMail>, confirm: DeleteConfirm, store: FavStore)

  /** The page once its mount effect has loaded the stored list. */
  function Mount(st: FavStore): (p: Page)
    ensures p.favorites == GetFavorites(st)
    ensures p.confirm == CLOSED && p.store == st
  {
    Page(GetFavorites(st), CLOSED, st)
  }

  /** `handleDeleteClick(mail)`: open the dialog on `mail`. */
  function DeleteClick(p: Page, mail: TempMail): (q: Page)
    ensures q.confirm == DeleteConfirm(true, Some(mail))
    ensures q.favorites == p.favorites && q.store == p.store
  {
    p.(confirm := DeleteConfirm(true, Some(mail)))
  }

  /** `handleDeleteConfirm`: when the dialog holds a mail, remove its id from
      storage and from the displayed list; close the dialog either way. */
  function DeleteConfirmed(p: Page, writeOk: bool): (q: Page)
    ensures q.confirm == CLOSED
    ensures p.confirm.mail.None? ==> q.favorites == p.favorites && q.store == p.store
    ensures p.confirm.mail.Some? ==>
              var id := p.confirm.mail.value.id;
              q.store == RemoveFavorite(p.store, id, writeOk) &&
              Subseq(q.favorites, p.favorites) &&
              forall m :: multiset(q.favorites)[m] == if m.id == id then 0 else multiset(p.favorites)[m]
  {
    match p.confirm.mail
    case Some(mail) =>
      Page(Filter(p.favorites, (item: TempMail) => item.id != mail.id), CLOSED,
           RemoveFavorite(p.store, mail.id, writeOk))
    case None => p.(confirm := CLOSED)
  }

  /** `handleDeleteCancel`: close the dialog, nothing else. */
  function DeleteCancel(p: Page): (q: Page)
    ensures q.confirm == CLOSED
    ensures q.favorites == p.favorites && q.store == p.store
  {
    p.(confirm := CLOSED)
  }

  /** The displayed list is what storage reads. */
  ghost predicate Mirrors(p: Page) {
    p.favorites == GetFavorites(p.store)
  }

  /** Mounting establishes the mirror; clicking, cancelling and a confirmed
      delete whose save does not throw keep it, whether or not storage
      exists. */
  lemma DeleteFlowKeepsMirror(st: FavStore, p: Page, mail: TempMail)
    requires Mirrors(p)
    ensures Mirrors(Mount(st))
    ensures Mirrors(DeleteClick(p, mail))
    ensures Mirrors(DeleteCancel(p))
    ensures Mirrors(DeleteConfirmed(p, true))
  {
  }

  /** Confirming after clicking a mail leaves no favourite with its id on
      the page and, once the save lands, none in storage. */
  lemma ClickThenConfirmRemoves(p: Page, mail: TempMail, writeOk: bool)
    ensures var q := DeleteConfirmed(DeleteClick(p, mail), writeOk);
            q.confirm == CLOSED &&
            (forall k :: 0 <= k < |q.favorites| ==> q.favorites[k].id != mail.id) &&
            (WriteLands(p.store, writeOk) ==> !IsFavorite(q.store, mail.id))
  {
  }
}
