/** The names both generators look for in the constants package. */
module Markers {

  datatype Marker = TwPres | DftLgDsps | DftSize

  function MarkerText(m: Marker): string {
    match m
    case TwPres => "TW_PRES"
    case DftLgDsps => "DFT_LG_DSPS"
    case DftSize => "DFT_SIZE"
  }
}
