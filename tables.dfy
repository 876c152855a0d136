/** The rows of the dashboard's two enriched tables and of the files they come from. */
module Tables {
  import opened Wrappers
  import opened Ages

  /** A row of `athletes.csv` once its birth date is parsed (unparsable dates are `None`). */
  datatype RawAthlete = RawAthlete(
    code: int,
    name: string,
    country: string,
    gender: Option<string>,
    birthDate: Option<Date>,
    disciplines: Option<string>)

  /** An athlete row after loading: cleaned disciplines plus the derived `Age` and `Continent`. */
  datatype Athlete = Athlete(
    code: int,
    name: string,
    country: string,
    gender: Option<string>,
    birthDate: Option<Date>,
    disciplines: string,
    age: Option<int>,
    continent: string)

  /** A row of `medallists.csv`: one athlete's medal, with that file's own gender column. */
  datatype RawMedallist = RawMedallist(
    codeAthlete: int,
    country: string,
    discipline: string,
    event: string,
    medalType: string,
    gender: Option<string>)

  /**
   * A medallist row after loading: the medal columns, then `code`, `Age` and
   * `gender` from the joined athlete (all `None` without a match), then `Continent`.
   */
  datatype Medallist = Medallist(
    codeAthlete: int,
    country: string,
    discipline: string,
    event: string,
    medalType: string,
    code: Option<int>,
    age: Option<int>,
    gender: Option<string>,
    continent: string)
}
