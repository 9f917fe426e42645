/** The result record every engine fills in: the four resolved levels, each as
    a code and a name, and the extracted name, phone, postal code and
    left-over detail text. Unset fields are empty strings. */
module Model {

  /** A snapshot of the record's fields. */
  datatype Fields = Fields(
    provinceCode: string, provinceName: string,
    cityCode: string, cityName: string,
    areaCode: string, areaName: string,
    streetCode: string, streetName: string,
    name: string, phone: string, postalCode: string, detail: string)

  /** A freshly constructed record. */
  const Default: Fields := Fields("", "", "", "", "", "", "", "", "", "", "", "")

  /** `ParseResult`, whose setters the parsers call. */
  class ParseResult {
    var provinceCode: string
    var provinceName: string
    var cityCode: string
    var cityName: string
    var areaCode: string
    var areaName: string
    var streetCode: string
    var streetName: string
    var name: string
    var phone: string
    var postalCode: string
    var detail: string

    /** The current values of all fields. */
    function Value(): Fields
      reads this
    {
      Fields(provinceCode, provinceName, cityCode, cityName, areaCode, areaName,
             streetCode, streetName, name, phone, postalCode, detail)
    }

    constructor ()
      ensures Value() == Default
    {
      provinceCode, provinceName := "", "";
      cityCode, cityName := "", "";
      areaCode, areaName := "", "";
      streetCode, streetName := "", "";
      name, phone, postalCode, detail := "", "", "", "";
    }
  }
}
