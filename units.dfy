/** The energy-unit selector `--unit` (0: kBT, 1: kcal/mol, 2: kJ/mol), identical in both scripts. */
module Units {
  import opened Common

  /** Boltzmann's constant in kcal/(mol K), as written in both scripts. */
  const KB: real := 0.0019872041
  /** Calories to joules. */
  const CAL2J: real := 4.184

  datatype Unit = Unit(factor: real, name: string)

  /**
   * The selector dispatch: 0, 1 and 2 give the factor that turns `-log(h)`
   * into the chosen unit; every other selector aborts with "Undefined unit!".
   */
  function UnitOf(selector: int, temperature: real): (r: Result<Unit>)
    ensures r.Err? <==> !(0 <= selector <= 2)
    ensures r.Err? ==> r.error == UndefinedUnit
    ensures selector == 0 ==> r == Ok(Unit(1.0, "kBT"))
    ensures selector == 1 ==> r == Ok(Unit(KB * temperature, "kcal/mol"))
    ensures selector == 2 ==> r == Ok(Unit(KB * temperature * CAL2J, "kJ/mol"))
    ensures r.Ok? && temperature > 0.0 ==> r.value.factor > 0.0
  {
    if selector == 0 then Ok(Unit(1.0, "kBT"))
    else if selector == 1 then Ok(Unit(KB * temperature, "kcal/mol"))
    else if selector == 2 then Ok(Unit(KB * temperature * CAL2J, "kJ/mol"))
    else Err(UndefinedUnit)
  }
}
