/** The data constants of the dashboard (scr/covid_19_constants.py). */
module Constants {

  /** The metadata columns removed from every series table. The source calls
      this list the columns "to keep", but clean_data_frame drops them. */
  const DroppedColumns: seq<string> := ["Lat", "Long", "Province/State"]

  /** The column the series tables are grouped by. */
  const CountryColumn: string := "Country/Region"

  /** Melt's label and value columns of the tidy table. */
  const VariableColumn: string := "variable"
  const ValueColumn: string := "value"

  /** The strftime format of the date slider's value. */
  const DateFormat: string := "%m/%d/%Y"

  /** First day of the date slider. */
  const StartYear: int := 2020
  const StartMonth: int := 1
  const StartDay: int := 22

  /** The fill value of the map snapshot's value column for unmatched countries. */
  const FillNaWith: string := "No data"

  /** Column names given to the geometry table, and its join column. */
  const GeoColumns: seq<string> := ["country", "country_code", "geometry"]
  const GeoCountryColumn: string := "country"

  /** Series suffixes of the merged table's per-country columns. */
  const Suffixes: seq<string> := ["_cases", "_deaths", "_recovered"]

  /** The country shown in the bar plot at start-up, and its columns. */
  const InitialCountry: string := "Germany"
  const InitialColumns: seq<string> := seq(|Suffixes|, i requires 0 <= i < |Suffixes| => InitialCountry + Suffixes[i])
}
