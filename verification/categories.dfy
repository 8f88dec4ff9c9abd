/** The four categories the snapshot is organised by. Each names a saved
    filter of the tracker, the sheet of the snapshot workbook holding that
    filter's issues, and the tag the dashboard gives those rows. */
module Categories {

  /** Target (every issue of the project), Pass, Fail and Unresolved. */
  datatype Category = Target | Pass | Fail | Unresolved {
    /** The name used for the filter map key, the sheet and the row tag. */
    function Key(): (k: string)
      ensures |k| > 0
    {
      match this
      case Target => "Target"
      case Pass => "Pass"
      case Fail => "Fail"
      case Unresolved => "Unresolved"
    }

    /** Position in the order the setup records the categories and the
        snapshot writes their sheets. */
    function Rank(): (n: nat)
      ensures n < 4
    {
      match this
      case Target => 0
      case Pass => 1
      case Fail => 2
      case Unresolved => 3
    }
  }

  /** Different categories have different names. */
  lemma KeyInjective(c: Category, d: Category)
    requires c.Key() == d.Key()
    ensures c == d
  {
  }
}
