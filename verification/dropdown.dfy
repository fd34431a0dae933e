/**
 * Normalisation of GLPI field values to the strings stored locally: GLPI
 * returns a dropdown field either as a plain id or name, or, when expanded, as
 * an object with a label and an id.
 */
module Dropdown {
  import opened Json

  /** The keys that label an expanded dropdown object, in the order they are tried. */
  const LabelKeys: seq<string> := ["completename", "name", "label"]

  /** `_dropdown_str(value)`: the string the backend stores for a GLPI field value. */
  function DropdownStr(v: Value): string {
    match v
    case Null => ""
    case Object(d) => FirstLabel(d, LabelKeys)
    case _ => ToStr(v)
  }

  /** The first truthy value among `keys`, printed; falls back to the object's id. */
  function FirstLabel(d: Fields, keys: seq<string>): string {
    if keys == [] then IdLabel(d)
    else if Truthy(Get(d, keys[0])) then ToStr(Get(d, keys[0]))
    else FirstLabel(d, keys[1..])
  }

  /** The object's id, printed, when it is present and not None; otherwise "". */
  function IdLabel(d: Fields): string {
    if HasKey(d, "id") && Get(d, "id") != Null then ToStr(Get(d, "id")) else ""
  }

  /** The first key whose value is truthy decides the label; the keys before it are skipped. */
  lemma {:induction false} FirstLabelPicksFirstTruthy(d: Fields, keys: seq<string>, i: nat)
    requires i < |keys| && Truthy(Get(d, keys[i]))
    requires forall j :: 0 <= j < i ==> !Truthy(Get(d, keys[j]))
    ensures FirstLabel(d, keys) == ToStr(Get(d, keys[i]))
  {
    if i > 0 {
      assert !Truthy(Get(d, keys[0]));
      FirstLabelPicksFirstTruthy(d, keys[1..], i - 1);
    }
  }

  /** When no key has a truthy value the label is the id. */
  lemma {:induction false} FirstLabelFallsBack(d: Fields, keys: seq<string>)
    requires forall j :: 0 <= j < |keys| ==> !Truthy(Get(d, keys[j]))
    ensures FirstLabel(d, keys) == IdLabel(d)
  {
    if keys != [] {
      assert !Truthy(Get(d, keys[0]));
      FirstLabelFallsBack(d, keys[1..]);
    }
  }

  /** Whether any of the label keys has a truthy value in `d`. */
  predicate HasLabel(d: Fields) {
    Truthy(Get(d, "completename")) || Truthy(Get(d, "name")) || Truthy(Get(d, "label"))
  }

  /**
   * The rules for an expanded dropdown object: "completename" wins over
   * "name", which wins over "label"; without any of them the id is printed,
   * and a missing id and an id of None both give "".
   */
  lemma DropdownStrObject(d: Fields)
    ensures Truthy(Get(d, "completename")) ==>
      DropdownStr(Object(d)) == ToStr(Get(d, "completename"))
    ensures !Truthy(Get(d, "completename")) && Truthy(Get(d, "name")) ==>
      DropdownStr(Object(d)) == ToStr(Get(d, "name"))
    ensures !Truthy(Get(d, "completename")) && !Truthy(Get(d, "name")) && Truthy(Get(d, "label")) ==>
      DropdownStr(Object(d)) == ToStr(Get(d, "label"))
    ensures !HasLabel(d) ==>
      DropdownStr(Object(d)) == if Get(d, "id") == Null then "" else ToStr(Get(d, "id"))
  {
    var ks := LabelKeys;
    if Truthy(Get(d, ks[0])) {
      FirstLabelPicksFirstTruthy(d, ks, 0);
    } else if Truthy(Get(d, ks[1])) {
      FirstLabelPicksFirstTruthy(d, ks, 1);
    } else if Truthy(Get(d, ks[2])) {
      FirstLabelPicksFirstTruthy(d, ks, 2);
    } else {
      FirstLabelFallsBack(d, ks);
    }
  }

  /** Exactly these values normalise to the empty string. */
  lemma DropdownStrEmpty(v: Value)
    ensures DropdownStr(v) == "" <==>
      || v == Null
      || v == Str("")
      || (v.Object? && !HasLabel(v.fields) && (Get(v.fields, "id") == Null || Get(v.fields, "id") == Str("")))
  {
    match v
    case Null =>
    case Object(d) =>
      DropdownStrObject(d);
      if Truthy(Get(d, "completename")) {
        TruthyToStrNonEmpty(Get(d, "completename"));
      } else if Truthy(Get(d, "name")) {
        TruthyToStrNonEmpty(Get(d, "name"));
      } else if Truthy(Get(d, "label")) {
        TruthyToStrNonEmpty(Get(d, "label"));
      } else {
        ToStrEmpty(Get(d, "id"));
      }
    case _ =>
      ToStrEmpty(v);
  }
}
