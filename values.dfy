/** `is_empty`, the one value predicate of the library that does not depend on
    run-time type inspection. */
module Values {

  datatype Option<T> = None | Some(value: T)

  /** `is_empty`: true when no value is present. */
  predicate IsEmpty<T>(value: Option<T>)
  {
    value.None?
  }

  /** Only absence is empty: a present value is never empty, whatever it is,
      including an empty string or an empty collection. */
  lemma OnlyAbsenceIsEmpty<T>(value: Option<T>)
    ensures IsEmpty(value) <==> forall v: T {:trigger Some(v)} :: value != Some(v)
  {
    if value.Some? {
      assert value == Some(value.value);
    }
  }

  lemma PresentEmptyStringIsNotEmpty()
    ensures !IsEmpty(Some(""))
    ensures IsEmpty<string>(None)
  {
  }
}
