/**
 * str.format over named fields, as the preprocessor uses it: a template is
 * already split into literal text and `{name}` fields, and rendering it
 * replaces each field by the value the format dictionary gives that name.
 */
module Template {

  datatype Piece = Text(text: string) | Field(name: string)

  type Template = seq<Piece>

  /** The field names a template refers to. */
  function Names(t: Template): set<string> {
    set i | 0 <= i < |t| && t[i].Field? :: t[i].name
  }

  /** Every field of `t` is given a value: str.format would not raise KeyError. */
  predicate Fits(t: Template, fields: map<string, string>) {
    Names(t) <= fields.Keys
  }

  function PieceText(p: Piece, fields: map<string, string>): string
    requires p.Field? ==> p.name in fields
  {
    match p
    case Text(s) => s
    case Field(n) => fields[n]
  }

  /** template.format(**fields) */
  function Render(t: Template, fields: map<string, string>): string
    requires Fits(t, fields)
  {
    if t == [] then []
    else
      NamesTail(t);
      PieceText(t[0], fields) + Render(t[1..], fields)
  }

  /** The names of a non-empty template: those of its first piece and of the rest. */
  lemma NamesTail(t: Template)
    requires t != []
    ensures t[0].Field? ==> t[0].name in Names(t)
    ensures Names(t[1..]) <= Names(t)
  {
    assert t[0].Field? ==> t[0].name in Names(t);
    forall n | n in Names(t[1..]) ensures n in Names(t) {
      var i :| 0 <= i < |t[1..]| && t[1..][i].Field? && t[1..][i].name == n;
      assert t[i + 1] == t[1..][i];
    }
  }

  /** Rendering a suffix of a template: its first piece, then the rest. */
  lemma RenderStep(t: Template, k: nat, fields: map<string, string>)
    requires k < |t| && Fits(t[k..], fields)
    ensures t[k].Field? ==> t[k].name in fields
    ensures Fits(t[k + 1..], fields)
    ensures Render(t[k..], fields) == PieceText(t[k], fields) + Render(t[k + 1..], fields)
  {
    NamesTail(t[k..]);
    assert t[k..][1..] == t[k + 1..];
  }

  /** Rendering a piece in front of a template whose fields all have values. */
  lemma RenderCons(p: Piece, rest: Template, fields: map<string, string>)
    requires p.Field? ==> p.name in fields
    requires Fits(rest, fields)
    ensures Fits([p] + rest, fields)
    ensures Render([p] + rest, fields) == PieceText(p, fields) + Render(rest, fields)
  {
    var t := [p] + rest;
    forall n | n in Names(t) ensures n in fields {
      var i :| 0 <= i < |t| && t[i].Field? && t[i].name == n;
      if i > 0 { assert t[i] == rest[i - 1]; }
    }
    assert t[1..] == rest;
  }

  lemma NamesConcat(a: Template, b: Template)
    ensures Names(a + b) == Names(a) + Names(b)
  {
    var ab := a + b;
    forall n | n in Names(ab) ensures n in Names(a) + Names(b) {
      var i :| 0 <= i < |ab| && ab[i].Field? && ab[i].name == n;
      if i < |a| { assert ab[i] == a[i]; } else { assert ab[i] == b[i - |a|]; }
    }
    forall n | n in Names(a) + Names(b) ensures n in Names(ab) {
      if n in Names(a) {
        var i :| 0 <= i < |a| && a[i].Field? && a[i].name == n;
        assert ab[i] == a[i];
      } else {
        var i :| 0 <= i < |b| && b[i].Field? && b[i].name == n;
        assert ab[|a| + i] == b[i];
      }
    }
  }

  /** Rendering is piecewise: a template's text is the text of its parts, in order. */
  lemma {:induction false} RenderConcat(a: Template, b: Template, fields: map<string, string>)
    requires Fits(a + b, fields)
    ensures Fits(a, fields) && Fits(b, fields)
    ensures Render(a + b, fields) == Render(a, fields) + Render(b, fields)
    decreases |a|
  {
    NamesConcat(a, b);
    if a == [] {
      assert a + b == b;
    } else {
      assert (a + b)[0] == a[0];
      assert (a + b)[1..] == a[1..] + b;
      NamesConcat(a[1..], b);
      RenderConcat(a[1..], b, fields);
    }
  }

  /**
   * Only the fields a template names matter: two dictionaries that agree on
   * those render it to the same text, whatever else they hold.
   */
  lemma {:induction false} RenderAgrees(t: Template, f: map<string, string>, g: map<string, string>)
    requires Fits(t, f) && Fits(t, g)
    requires forall n | n in Names(t) :: f[n] == g[n]
    ensures Render(t, f) == Render(t, g)
    decreases |t|
  {
    if t != [] {
      NamesTail(t);
      RenderAgrees(t[1..], f, g);
    }
  }
}
