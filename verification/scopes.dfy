/**
 * The GUI helpers' save-and-restore scopes and the labelled field. The label column
 * width is shared state: a width scope saves it, sets a new one and puts the saved one
 * back when disposed.
 */
module Scopes {
  import opened Common

  const DefaultLabelFieldWidth: real := 150.0

  /** A width scope remembers the width that was current when it was opened. */
  datatype WidthScope = WidthScope(saved: real)

  datatype Opened = Opened(scope: WidthScope, width: real)

  function OpenWidthScope(current: real, width: real): (o: Opened)
    ensures o.width == width && o.scope.saved == current
  {
    Opened(WidthScope(current), width)
  }

  /** The width after disposing a scope: whatever it saved, regardless of the current width. */
  function DisposeWidthScope(s: WidthScope, current: real): (width: real)
    ensures width == s.saved
  {
    s.saved
  }

  datatype Nesting = Nesting(scopes: seq<WidthScope>, width: real)

  /** Opens one scope per width, each inside the previous one. */
  function OpenNested(current: real, ws: seq<real>): (n: Nesting)
    ensures |n.scopes| == |ws|
    ensures n.width == if ws == [] then current else ws[|ws| - 1]
    decreases |ws|
  {
    if ws == [] then Nesting([], current)
    else
      var inner := OpenNested(current, ws[..|ws| - 1]);
      var o := OpenWidthScope(inner.width, ws[|ws| - 1]);
      Nesting(inner.scopes + [o.scope], o.width)
  }

  /** Disposes scopes innermost first. */
  function DisposeAll(scopes: seq<WidthScope>, current: real): (width: real)
    decreases |scopes|
  {
    if scopes == [] then current
    else DisposeAll(scopes[..|scopes| - 1], DisposeWidthScope(scopes[|scopes| - 1], current))
  }

  /** Scopes disposed in the reverse order of opening put back the width from before the first. */
  lemma {:induction false} NestedScopesRestore(current: real, ws: seq<real>)
    ensures DisposeAll(OpenNested(current, ws).scopes, OpenNested(current, ws).width) == current
    decreases |ws|
  {
    if ws != [] {
      var inner := OpenNested(current, ws[..|ws| - 1]);
      var n := OpenNested(current, ws);
      assert n.scopes[..|n.scopes| - 1] == inner.scopes;
      assert n.scopes[|n.scopes| - 1].saved == inner.width;
      NestedScopesRestore(current, ws[..|ws| - 1]);
    }
  }

  /** Disposing two nested scopes outer first leaves the outer scope's width in place. */
  lemma OutOfOrderDisposeLeaksWidth(current: real, a: real, b: real)
    ensures var oa := OpenWidthScope(current, a);
      var ob := OpenWidthScope(oa.width, b);
      DisposeWidthScope(ob.scope, DisposeWidthScope(oa.scope, ob.width)) == a
  {
  }

  /** A change check remembers whether the GUI had already changed when it was created. */
  datatype ChangeCheck = ChangeCheck(prevChanged: bool)

  function NewChangeCheck(guiChanged: bool): (c: ChangeCheck)
    ensures c.prevChanged == guiChanged
  {
    ChangeCheck(guiChanged)
  }

  /** A change is reported only if the GUI changed after the check was created and before it was disposed. */
  predicate Changed(c: ChangeCheck, guiChanged: bool) {
    !c.prevChanged && guiChanged
  }

  function DisposeChangeCheck(c: ChangeCheck): (d: ChangeCheck)
    ensures d.prevChanged
  {
    ChangeCheck(true)
  }

  /** After disposal, and when the GUI had already changed at creation, no change is ever reported. */
  lemma ChangeCheckSilences(guiAtCreation: bool, guiNow: bool)
    ensures !Changed(DisposeChangeCheck(NewChangeCheck(guiAtCreation)), guiNow)
    ensures guiAtCreation ==> !Changed(NewChangeCheck(guiAtCreation), guiNow)
    ensures !guiAtCreation ==> (Changed(NewChangeCheck(guiAtCreation), guiNow) <==> guiNow)
  {
  }

  /** A labelled field: the value its callback produced and the label column width, if drawn. */
  datatype Field<T> = Field(value: T, labelWidth: Option<real>)

  /** Without a callback nothing is drawn and the type's default comes back; otherwise the label is drawn at the current width. */
  function LabelValueField<T>(width: real, field: Option<T>, default: T): (f: Field<T>)
    ensures field.None? <==> f.labelWidth.None?
    ensures field.None? ==> f.value == default
    ensures field.Some? ==> f.value == field.value && f.labelWidth == Some(width)
  {
    match field
    case None => Field(default, None)
    case Some(v) => Field(v, Some(width))
  }

  /** A field drawn inside a width scope uses the scope's width; one drawn after disposal uses the width from before. */
  lemma FieldWidthFollowsScope<T>(current: real, w: real, v: T, default: T)
    ensures var o := OpenWidthScope(current, w);
      && LabelValueField(o.width, Some(v), default).labelWidth == Some(w)
      && LabelValueField(DisposeWidthScope(o.scope, o.width), Some(v), default).labelWidth == Some(current)
  {
  }
}
