/** The credit plans on sale and the conversion of a price to the unit the
    payment gateway expects. */
module Plans {
  import opened Records

  /** A plan: its name, the credits it buys and its price in whole currency units. */
  datatype Plan = Plan(name: string, credits: nat, amount: nat)

  /** The `switch (planId)` of the payment handler. */
  function PlanFor(planId: string): (r: Option<Plan>)
    ensures r.Some? <==> planId == "Basic" || planId == "Advanced" || planId == "Business"
    ensures r.Some? ==> r.value.name == planId && r.value.credits > 0 && r.value.amount > 0
    ensures planId == "Basic" ==> r == Some(Plan("Basic", 100, 10))
    ensures planId == "Advanced" ==> r == Some(Plan("Advanced", 500, 50))
    ensures planId == "Business" ==> r == Some(Plan("Business", 5000, 250))
  {
    match planId
    case "Basic" => Some(Plan("Basic", 100, 10))
    case "Advanced" => Some(Plan("Advanced", 500, 50))
    case "Business" => Some(Plan("Business", 5000, 250))
    case _ => None
  }

  /** The order amount in the smallest currency unit (hundredths): a whole
      number of hundredths from which the price is recovered exactly. */
  function SmallestUnit(amount: nat): (units: nat)
    ensures units % 100 == 0 && units / 100 == amount
    ensures amount > 0 ==> units >= 100
  {
    amount * 100
  }
}
