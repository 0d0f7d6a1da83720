/**
 Chains of Add and Remove calls on one builder (argus.go:102-111), and what they leave
 behind: each key ends up as its last edit says, and untouched keys keep their values.
 */
module EntryEdits {
  import opened Wrappers
  import opened OrderedMap
  import opened Argus

  datatype Edit = AddField(key: string, value: Value) | RemoveField(key: string)

  function ApplyEdit(b: Builder, e: Edit): Builder {
    match e
    case AddField(k, v) => Add(b, k, v)
    case RemoveField(k) => Remove(b, k)
  }

  /** The edits applied left to right, as a chain of calls does. */
  function ApplyEdits(b: Builder, es: seq<Edit>): Builder
    decreases |es|
  {
    if |es| == 0 then b else ApplyEdits(ApplyEdit(b, es[0]), es[1..])
  }

  /** The last edit that names `k`, found by scanning from the end. */
  function LastEdit(es: seq<Edit>, k: string): Option<Edit>
    decreases |es|
  {
    if |es| == 0 then None
    else if es[|es| - 1].key == k then Some(es[|es| - 1])
    else LastEdit(es[..|es| - 1], k)
  }

  /** What a key holds after the edits, read off the last edit naming it. */
  function Expected(b: Builder, es: seq<Edit>, k: string): Option<Value> {
    match LastEdit(es, k)
    case None => Get(b.fields, k)
    case Some(AddField(_, v)) => Some(v)
    case Some(RemoveField(_)) => None
  }

  /**
   The key order after the edits, computed on keys alone: an added key that is new goes
   last, an added key already present stays put, a removed key drops out.
   */
  function KeyOrder(ks: seq<string>, es: seq<Edit>): seq<string>
    decreases |es|
  {
    if |es| == 0 then ks
    else
      var next := match es[0]
        case AddField(k, _) => if k in ks then ks else ks + [k]
        case RemoveField(k) => Without(ks, k);
      KeyOrder(next, es[1..])
  }

  lemma {:induction false} ApplyEditsSnoc(b: Builder, es: seq<Edit>, e: Edit)
    ensures ApplyEdits(b, es + [e]) == ApplyEdit(ApplyEdits(b, es), e)
    decreases |es|
  {
    if |es| > 0 {
      assert (es + [e])[1..] == es[1..] + [e];
      ApplyEditsSnoc(ApplyEdit(b, es[0]), es[1..], e);
    } else {
      assert (es + [e])[1..] == [];
    }
  }

  /** Edits never change the logger or the level, and keep the record well formed. */
  lemma {:induction false} EditsKeepEntry(b: Builder, es: seq<Edit>)
    requires Valid(b.fields)
    ensures ApplyEdits(b, es).logger == b.logger && ApplyEdits(b, es).level == b.level
    ensures Valid(ApplyEdits(b, es).fields)
    decreases |es|
  {
    if |es| > 0 {
      match es[0] {
        case AddField(k, v) => AddSpec(b, k, v);
        case RemoveField(k) => RemoveSpec(b, k);
      }
      EditsKeepEntry(ApplyEdit(b, es[0]), es[1..]);
    }
  }

  /** One more edit: its own key takes what it says, every other key keeps its value. */
  lemma LastEditStep(b: Builder, e: Edit, k: string)
    requires Valid(b.fields)
    ensures Get(ApplyEdit(b, e).fields, k) ==
      if e.key != k then Get(b.fields, k)
      else match e
        case AddField(_, v) => Some(v)
        case RemoveField(_) => None
  {
    match e {
      case AddField(k', v) => AddSpec(b, k', v);
      case RemoveField(k') => RemoveSpec(b, k');
    }
  }

  /** After any chain of edits, each key holds what its last edit put there, or its old value if none named it. */
  lemma {:induction false} EditsDetermineFields(b: Builder, es: seq<Edit>, k: string)
    requires Valid(b.fields)
    ensures Get(ApplyEdits(b, es).fields, k) == Expected(b, es, k)
    decreases |es|
  {
    if |es| > 0 {
      var init := es[..|es| - 1];
      var e := es[|es| - 1];
      assert init + [e] == es;
      ApplyEditsSnoc(b, init, e);
      var mid := ApplyEdits(b, init);
      EditsKeepEntry(b, init);
      LastEditStep(mid, e, k);
      if e.key != k {
        assert LastEdit(es, k) == LastEdit(init, k);
        EditsDetermineFields(b, init, k);
      } else {
        assert LastEdit(es, k) == Some(e);
      }
    }
  }

  /** A key is present after the edits exactly when its last edit added it, or no edit named it and it was there. */
  lemma EditsDetermineKeys(b: Builder, es: seq<Edit>, k: string)
    requires Valid(b.fields)
    ensures k in Keys(ApplyEdits(b, es).fields) <==>
      match LastEdit(es, k)
      case None => k in Keys(b.fields)
      case Some(e) => e.AddField?
  {
    EditsDetermineFields(b, es, k);
  }

  /** The record's key order after any chain of edits is the one KeyOrder computes from the keys alone. */
  lemma {:induction false} EditsDetermineOrder(b: Builder, es: seq<Edit>)
    ensures Keys(ApplyEdits(b, es).fields) == KeyOrder(Keys(b.fields), es)
    decreases |es|
  {
    if |es| > 0 {
      var next := ApplyEdit(b, es[0]);
      match es[0] {
        case AddField(k, v) =>
          assert Keys(next.fields) == if k in Keys(b.fields) then Keys(b.fields) else Keys(b.fields) + [k];
        case RemoveField(k) =>
          assert Keys(next.fields) == Without(Keys(b.fields), k);
      }
      EditsDetermineOrder(next, es[1..]);
    }
  }
}
