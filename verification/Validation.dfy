/**
 Form fields, the constraints chained onto them and the accumulator of includes/udho/forms.h.
 A form is what a field asks it for: whether a name is there, and the value if it can be parsed.
 */
module Validation {
  import opened Maps
  import opened Options

  datatype Form<!T> = Form(has: string -> bool, field: string -> Option<T>)

  datatype Validator<!T> = Validator(accepts: T -> bool, message: string)

  /** What a field is declared with; `blank` is the value-initialised T. */
  datatype Declaration<T> = Declaration(
    name: string, required: bool, default: T, blank: T, absent: string, malformed: string)

  /** The fields of field_common and field_data. */
  datatype Data<T> = Data(absent: bool, unparsable: bool, fetched: bool, valid: bool, message: string, value: T)

  function Fresh<T>(d: Declaration<T>): Data<T> {
    Data(true, true, false, true, "", d.blank)
  }

  function Complaint<T>(d: Declaration<T>): string {
    if d.malformed == "" then d.absent else d.malformed
  }

  /** field<T, Required>::fetch. */
  function Fetched<T>(d: Declaration<T>, x: Data<T>, form: Form<T>): Data<T> {
    if x.fetched then x
    else if form.has(d.name) then
      match form.field(d.name)
      case Some(v) => x.(absent := false, unparsable := false, fetched := true, valid := true, value := v)
      case None =>
        x.(absent := false, unparsable := true, fetched := true, valid := false,
           value := d.blank, message := Complaint(d))
    else if d.required then x.(absent := true, fetched := true, valid := false, message := d.absent)
    else x.(absent := true, fetched := true, valid := true, value := d.default)
  }

  /** basic_field::validate. */
  function Checked<T>(x: Data<T>, v: Validator<T>): (Data<T>, bool) {
    if !x.valid || x.absent then (x, false)
    else if v.accepts(x.value) then (x, true)
    else (x.(valid := false, message := v.message), false)
  }

  /** A chain of constraints, the innermost first: each head is validated before its own constraint. */
  function Chained<T>(d: Declaration<T>, x: Data<T>, form: Form<T>, vs: seq<Validator<T>>): (Data<T>, bool)
    requires vs != []
  {
    var last := vs[|vs| - 1];
    if |vs| == 1 then Checked(Fetched(d, x, form), last)
    else
      var (x', ok) := Chained(d, x, form, vs[..|vs| - 1]);
      if ok then Checked(Fetched(d, x', form), last) else (x', false)
  }

  class Field<T> {
    const declaration: Declaration<T>
    var absent: bool
    var unparsable: bool
    var fetched: bool
    var valid: bool
    var message: string
    var value: T

    constructor (d: Declaration<T>)
      ensures declaration == d && View() == Fresh(d)
    {
      declaration := d;
      absent, unparsable, fetched, valid, message, value := true, true, false, true, "", d.blank;
    }

    function View(): Data<T>
      reads this
    {
      Data(absent, unparsable, fetched, valid, message, value)
    }

    method Fetch(form: Form<T>) returns (ok: bool)
      modifies this
      ensures View() == Fetched(declaration, old(View()), form) && ok == valid
    {
      if fetched { return valid; }
      absent := !form.has(declaration.name);
      if !absent {
        var parsed := form.field(declaration.name);
        value := if parsed.Some? then parsed.value else declaration.blank;
        unparsable := parsed.None?;
        if unparsable { message := Complaint(declaration); }
        valid := !unparsable;
      } else if declaration.required {
        message := declaration.absent;
        valid := false;
      } else {
        valid := true;
        value := declaration.default;
      }
      fetched := true;
      return valid;
    }

    /** field::validate: fetch, then one constraint. */
    method Validate(form: Form<T>, v: Validator<T>) returns (ok: bool)
      modifies this
      ensures (View(), ok) == Checked(Fetched(declaration, old(View()), form), v)
    {
      var _ := Fetch(form);
      if valid && !absent {
        valid := v.accepts(value);
        if !valid { message := v.message; }
        return valid;
      }
      return false;
    }

    /** constrained_field::validate. */
    method ValidateChain(form: Form<T>, vs: seq<Validator<T>>) returns (ok: bool)
      requires vs != []
      modifies this
      ensures (View(), ok) == Chained(declaration, old(View()), form, vs)
      decreases |vs|
    {
      if |vs| > 1 {
        ok := ValidateChain(form, vs[..|vs| - 1]);
        if !ok { return false; }
      }
      ok := Validate(form, vs[|vs| - 1]);
    }
  }

  /* ---- what a chain decides ---- */

  ghost predicate Passes<T>(v: T, vs: seq<Validator<T>>) {
    forall c | c in vs :: c.accepts(v)
  }

  /** The message of the first constraint that rejects `v`. */
  function FirstRejection<T>(v: T, vs: seq<Validator<T>>): Option<string> {
    if vs == [] then None else if !vs[0].accepts(v) then Some(vs[0].message) else FirstRejection(v, vs[1..])
  }

  lemma {:induction false} RejectionLast<T>(v: T, vs: seq<Validator<T>>, c: Validator<T>)
    ensures FirstRejection(v, vs + [c]) ==
      if FirstRejection(v, vs).Some? then FirstRejection(v, vs)
      else if c.accepts(v) then None else Some(c.message)
    ensures FirstRejection(v, vs) == None <==> Passes(v, vs)
  {
    if vs == [] {
      assert vs + [c] == [c];
    } else {
      assert (vs + [c])[1..] == vs[1..] + [c] && vs == [vs[0]] + vs[1..];
      RejectionLast(v, vs[1..], c);
    }
  }

  /** A fetched field under a chain: nothing is fetched again, and the first rejection is what remains. */
  lemma {:induction false} ChainOnFetched<T>(d: Declaration<T>, x: Data<T>, form: Form<T>, vs: seq<Validator<T>>)
    requires vs != [] && x.fetched
    ensures Chained(d, x, form, vs) ==
      if !x.valid || x.absent then (x, false)
      else match FirstRejection(x.value, vs)
        case None => (x, true)
        case Some(message) => (x.(valid := false, message := message), false)
  {
    var front, last := vs[..|vs| - 1], vs[|vs| - 1];
    assert vs == front + [last];
    RejectionLast(x.value, front, last);
    if front != [] { ChainOnFetched(d, x, form, front); }
  }

  lemma {:induction false} ChainFetches<T>(d: Declaration<T>, x: Data<T>, form: Form<T>, vs: seq<Validator<T>>)
    requires vs != []
    ensures Chained(d, x, form, vs) == Chained(d, Fetched(d, x, form), form, vs)
  {
    if |vs| > 1 { ChainFetches(d, x, form, vs[..|vs| - 1]); }
  }

  /**
   A fresh field: validation succeeds iff the value is there, can be parsed and passes every
   constraint. The field also counts as valid when it is optional and absent, and its message
   is that of the first thing that went wrong.
   */
  lemma ChainDecides<T>(d: Declaration<T>, form: Form<T>, vs: seq<Validator<T>>)
    requires vs != []
    ensures var (x, ok) := Chained(d, Fresh(d), form, vs);
            && (ok <==> form.has(d.name) && form.field(d.name).Some? && Passes(form.field(d.name).value, vs))
            && (x.valid <==> ok || (!d.required && !form.has(d.name)))
            && x.message ==
                 (if !form.has(d.name) then (if d.required then d.absent else "")
                  else match form.field(d.name)
                    case None => (if d.malformed == "" then d.absent else d.malformed)
                    case Some(v) => match FirstRejection(v, vs) case None => "" case Some(message) => message)
            && x.value ==
                 (if form.has(d.name) then (match form.field(d.name) case None => d.blank case Some(v) => v)
                  else if d.required then d.blank else d.default)
  {
    var x := Fetched(d, Fresh(d), form);
    ChainFetches(d, Fresh(d), form, vs);
    ChainOnFetched(d, x, form, vs);
    RejectionLast(x.value, vs, vs[0]);
  }

  /** Validating again, even against another form, changes nothing and answers the same. */
  lemma RevalidationChangesNothing<T>(d: Declaration<T>, x: Data<T>, form: Form<T>, other: Form<T>,
                                      vs: seq<Validator<T>>)
    requires vs != []
    ensures var (x', ok) := Chained(d, x, form, vs); Chained(d, x', other, vs) == (x', ok)
  {
    var x0 := Fetched(d, x, form);
    ChainFetches(d, x, form, vs);
    ChainOnFetched(d, x0, form, vs);
    ChainOnFetched(d, Chained(d, x, form, vs).0, other, vs);
  }

  /* ---- the accumulator ---- */

  /** A field as it is added: `constrained` tells which overload of add is chosen. */
  datatype Entry = Entry(name: string, valid: bool, message: string, fetched: bool, constrained: bool)

  datatype Summary = Summary(valid: bool, submitted: bool, errors: seq<string>, fields: map<string, Entry>)

  const NOTHING := Summary(true, false, [], map[])

  function Added(a: Summary, e: Entry): Summary {
    Summary(a.valid && e.valid, a.submitted || (e.constrained && e.fetched),
            if e.valid then a.errors else a.errors + [e.message], Insert(a.fields, e.name, e))
  }

  function AllAdded(a: Summary, es: seq<Entry>): Summary
    decreases |es|
  {
    if es == [] then a else AllAdded(Added(a, es[0]), es[1..])
  }

  class Accumulated {
    var valid: bool
    var submitted: bool
    var errors: seq<string>
    var fields: map<string, Entry>

    constructor ()
      ensures View() == NOTHING
    {
      valid, submitted, errors, fields := true, false, [], map[];
    }

    function View(): Summary
      reads this
    {
      Summary(valid, submitted, errors, fields)
    }

    method Add(e: Entry)
      modifies this
      ensures View() == Added(old(View()), e)
    {
      if e.constrained { submitted := submitted || e.fetched; }
      valid := valid && e.valid;
      if !e.valid { errors := errors + [e.message]; }
      fields := Insert(fields, e.name, e);
    }

    /** An error of its own does not make the accumulator invalid. */
    method AddError(message: string)
      modifies this
      ensures View() == old(View()).(errors := old(errors) + [message])
    {
      errors := errors + [message];
    }
  }

  /** The messages of the invalid entries, in order. */
  function Errors(es: seq<Entry>): seq<string> {
    if es == [] then [] else (if es[0].valid then [] else [es[0].message]) + Errors(es[1..])
  }

  function FirstNamed(es: seq<Entry>, k: string): Option<Entry> {
    if es == [] then None else if es[0].name == k then Some(es[0]) else FirstNamed(es[1..], k)
  }

  lemma {:induction false} AddAll(a: Summary, es: seq<Entry>)
    ensures var r := AllAdded(a, es);
            && (r.valid <==> a.valid && Errors(es) == [])
            && (r.submitted <==> a.submitted || exists e | e in es :: e.constrained && e.fetched)
            && r.errors == a.errors + Errors(es)
    decreases |es|
  {
    if es != [] {
      assert es == [es[0]] + es[1..];
      AddAll(Added(a, es[0]), es[1..]);
    }
  }

  lemma {:induction false} AddFields(a: Summary, es: seq<Entry>, k: string)
    ensures var fields := AllAdded(a, es).fields;
            && (k in fields <==> k in a.fields || FirstNamed(es, k).Some?)
            && (k in fields ==> fields[k] == if k in a.fields then a.fields[k] else FirstNamed(es, k).value)
    decreases |es|
  {
    if es != [] { AddFields(Added(a, es[0]), es[1..], k); }
  }

  /**
   An accumulator is valid iff every added field is, its errors are theirs in order, and of
   the fields of one name it keeps the first.
   */
  lemma AccumulatorSums(es: seq<Entry>, k: string)
    ensures var r := AllAdded(NOTHING, es);
            && (r.valid <==> forall e | e in es :: e.valid)
            && (r.submitted <==> exists e | e in es :: e.constrained && e.fetched)
            && r.errors == Errors(es)
            && (k in r.fields <==> FirstNamed(es, k).Some?)
            && (k in r.fields ==> Some(r.fields[k]) == FirstNamed(es, k))
  {
    hide AllAdded, Errors, FirstNamed;
    AddAll(NOTHING, es);
    AddFields(NOTHING, es, k);
    NoErrors(es);
  }

  lemma {:induction false} NoErrors(es: seq<Entry>)
    ensures Errors(es) == [] <==> forall e | e in es :: e.valid
  {
    if es != [] {
      assert es == [es[0]] + es[1..];
      NoErrors(es[1..]);
    }
  }
}
