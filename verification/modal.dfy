/**
 The account-opening dialog. The dialog element and its backdrop each carry
 the `hidden` class on their own; the handlers always add or remove it on both.
 */
module Modal {

  datatype Modal = Modal(modalHidden: bool, overlayHidden: bool)

  /** Dialog and backdrop agree: both shown or both hidden. */
  predicate Consistent(m: Modal) {
    m.modalHidden == m.overlayHidden
  }

  predicate Shown(m: Modal) {
    !m.modalHidden && !m.overlayHidden
  }

  predicate Closed(m: Modal) {
    m.modalHidden && m.overlayHidden
  }

  /** openModal (any `.btn--show-modal`): remove `hidden` from the dialog and the backdrop. */
  function Open(m: Modal): (r: Modal)
    ensures Shown(r) && Consistent(r)
  {
    m.(modalHidden := false, overlayHidden := false)
  }

  /** closeModal (the close button and the backdrop): add `hidden` to both. */
  function Close(m: Modal): (r: Modal)
    ensures Closed(r) && Consistent(r)
  {
    m.(modalHidden := true, overlayHidden := true)
  }

  /**
   The document's Escape handler: close only when the dialog itself is not
   hidden. Only the dialog's class is consulted, not the backdrop's.
   */
  function Escape(m: Modal): (r: Modal)
    ensures m.modalHidden ==> r == m
    ensures !m.modalHidden ==> Closed(r)
    ensures Consistent(m) ==> Closed(r) || r == m
  {
    if !m.modalHidden then Close(m) else m
  }

  /** Opening and closing forget the previous state, so each is idempotent. */
  lemma OpenCloseIdempotent(m: Modal)
    ensures Open(Open(m)) == Open(m)
    ensures Close(Close(m)) == Close(m)
    ensures Escape(Escape(m)) == Escape(m)
  {
  }

  /** Every handler keeps dialog and backdrop in agreement. */
  lemma HandlersKeepConsistent(m: Modal)
    requires Consistent(m)
    ensures Consistent(Open(m)) && Consistent(Close(m)) && Consistent(Escape(m))
  {
  }

  /** Escape changes the state exactly when the dialog is showing, and then it is the close button. */
  lemma EscapeOnlyWhenShown(m: Modal)
    requires Consistent(m)
    ensures Escape(m) != m <==> Shown(m)
    ensures Shown(m) ==> Escape(m) == Close(m)
  {
  }
}
