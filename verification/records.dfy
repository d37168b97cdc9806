/** The record shapes the component handles: the user records the remote
    service returns, and the id-less drafts behind the two forms. */
module Records {

  /** The three inputs of each form, named in the source by the input's
      `name` attribute ("name", "email", "mobile"). */
  datatype Field = Name | Email | Mobile

  /** A user record as the remote service returns it; `id` is the
      server-assigned `_id`, the record's identity. */
  datatype Record = Record(id: string, name: string, email: string, mobile: string)
  {
    /** The value of one form field of this record; the same selector as
        `Form.Get`, and `FormOf` carries one over to the other. */
    function Get(f: Field): string {
      match f
      case Name => name
      case Email => email
      case Mobile => mobile
    }
  }

  /** A record-shaped draft without an id: the new-user form (`user`) and
      the edit form (`editUser`). */
  datatype Form = Form(name: string, email: string, mobile: string)
  {
    /** The value of one field of the draft. */
    function Get(f: Field): string {
      match f
      case Name => name
      case Email => email
      case Mobile => mobile
    }

    /** The draft with field `f` set to `v`: the object spread
        `{ ...prev, [name]: value }` of an input's change handler. */
    function With(f: Field, v: string): (r: Form)
      ensures r.Get(f) == v
      ensures forall g :: g != f ==> r.Get(g) == Get(g)
    {
      match f
      case Name => this.(name := v)
      case Email => this.(email := v)
      case Mobile => this.(mobile := v)
    }
  }

  /** The initial and the cleared draft: all three fields empty. */
  const EmptyForm: Form := Form("", "", "")

  /** The edit draft copied from record `u` when its row enters edit mode. */
  function FormOf(u: Record): (r: Form)
    ensures forall f :: r.Get(f) == u.Get(f)
  {
    Form(u.name, u.email, u.mobile)
  }

  /** Two drafts are equal exactly when they agree on every field, so the
      field-wise contracts of `With` and `FormOf` pin drafts down completely. */
  lemma FormsEqualByFields(a: Form, b: Form)
    ensures a == b <==> forall f :: a.Get(f) == b.Get(f)
  {
    if forall f :: a.Get(f) == b.Get(f) {
      assert a.Get(Name) == b.Get(Name);
      assert a.Get(Email) == b.Get(Email);
      assert a.Get(Mobile) == b.Get(Mobile);
    }
  }

  /** Writing a field twice keeps only the second value. */
  lemma WithTwice(d: Form, f: Field, v: string, w: string)
    ensures d.With(f, v).With(f, w) == d.With(f, w)
  {
    FormsEqualByFields(d.With(f, v).With(f, w), d.With(f, w));
  }

  /** Changes to two different fields commute. */
  lemma WithCommutes(d: Form, f: Field, g: Field, v: string, w: string)
    requires f != g
    ensures d.With(f, v).With(g, w) == d.With(g, w).With(f, v)
  {
    FormsEqualByFields(d.With(f, v).With(g, w), d.With(g, w).With(f, v));
  }

  /** Writing back a field's current value leaves the draft as it was. */
  lemma WithSameValue(d: Form, f: Field)
    ensures d.With(f, d.Get(f)) == d
  {
    FormsEqualByFields(d.With(f, d.Get(f)), d);
  }
}
