/** The canonical tidy schema every source is normalised into. */
module Schema {
  import opened Wrappers
  import opened Cells

  /** The output columns, in order. `TidyRow` has exactly these fields, in
      this order, so every tidy table is already projected onto them. */
  const SCHEMA: seq<string> := [
    "country_iso3", "country_name", "year", "indicator_id", "value", "unit",
    "source", "disagg_type", "disagg_value", "is_imputed", "obs_status"
  ]

  /** One observation of one indicator. `iso3`, `name` and `unit` carry cells
      of the source table unchanged; `year` and `value` are coerced numbers. */
  datatype TidyRow = TidyRow(
    iso3: Cell,
    name: Cell,
    year: Option<real>,
    indicatorId: string,
    value: Option<real>,
    unit: Cell,
    source: string,
    disaggType: Cell,
    disaggValue: Cell,
    isImputed: bool,
    obsStatus: Cell
  )

  /** The fixed columns every normaliser writes: the requested indicator id,
      the source name, no disaggregation, not imputed, no status flag. */
  predicate Stamped(r: TidyRow, indicatorId: string, source: string) {
    && r.indicatorId == indicatorId
    && r.source == source
    && r.disaggType == Missing
    && r.disaggValue == Missing
    && !r.isImputed
    && r.obsStatus == Missing
  }

  /** The interim store: the tidy rows saved for an indicator id, or `None`
      when no file exists for it. */
  type Interim = string -> Option<seq<TidyRow>>
}
