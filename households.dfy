/**
 * One row of the household energy table (the CSV columns `Household_ID`,
 * `Region`, `Monthly_Income_INR`, `Monthly_Energy_Consumption_kWh`,
 * `Appliance_AC`, `Appliance_Fan`, `Appliance_Light`, `Fridge`,
 * `Washing_Machine`, `EV_Charging`).
 */
module Households {
  /** Number of each kind of appliance a household owns. */
  datatype Appliances = Appliances(ac: nat, fan: nat, light: nat, fridge: nat, washingMachine: nat)

  /**
   * `id` is the household identifier as it is printed in messages;
   * `energyKwh` is the monthly consumption in whole kWh; `evCharging`
   * stands for `EV_Charging == 1`.
   */
  datatype Record = Record(
    id: string,
    region: string,
    incomeInr: nat,
    energyKwh: nat,
    appliances: Appliances,
    evCharging: bool)
}
