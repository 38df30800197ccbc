# Financial calculators: a Dafny model of the formula layer

The site (MoneyCalc) offers ten client-side financial calculators. Each is a form-submit handler in
`assets/js/main.js`. A handler reads numbers from the form, converts percentages to fractions (and
annual rates to monthly ones), applies one formula and writes the result as HTML. This project models the
arithmetic of the ten handlers and proves what the formulas mean.

Numbers are Dafny `real`s, an exact idealisation of JavaScript doubles. `Math.pow` appears only with whole
exponents, as the recursive `Growth.Pow`. Each calculator takes the raw field values, already parsed, so
rates come in as percentages and the model does the `/ 100` and `/ 12` conversions itself.

The shared partner of every future-value, annuity and payment formula is `Growth.Accumulate`. It is the
period-by-period simulation: each period the balance grows by a factor, then a deposit is added. The FIRE
handler runs this simulation literally in its `while` loop. Every closed-form future-value, annuity and
payment formula is proved equal to it:

- `Growth.SeriesFormula` proves the closed form equals the simulation; `Growth.FutureValue` is the
  deposit part of that closed form, shared by the compound and ETF calculators.
- The compound, ETF, loan and monthly-saving results are restated as balances of the simulation.
- The savings-goal solve is proved to invert it, for goals that are exact whole-month balances and
  assuming `ln(b^k) = k*ln(b)` at the monthly growth factor.

Modules:

- `Wrappers`: the `Option` type.
- `Numbers`: percent and monthly-rate conversion, the month count `years * 12`, whole-number exponents, and JavaScript's `Math.ceil`, `Math.floor` and `%`.
- `Growth`: `Pow`, `Accumulate` and the closed-form lemmas.
- One module per handler: `CompoundInterest`, `IncomeGoal`, `Dividend`, `SavingsGoal`, `Fire`, `EtfSavings`,
  `LoanComparison`, `MonthlySaving`, `NetSalary`, `SideIncome`.

Divisions that the source does not guard are `requires` clauses. Most are collected in `Computable`
predicates: `r/n` in the compound formula, `/ r` in the ETF formula, `months` and `n` in the zero-rate
branches, the annuity denominators `(1 + r)^n - 1`, and the savings goal's `Math.log(1 + r)`. The FIRE
withdrawal rate is a plain `requires` on `Fire.FireNumber` and `Fire.Project`. Where the source does guard
a division, with an early `return`, the model returns `None`.

Three behaviours of the handlers are kept as written:

- The compound-interest formula divides by `r / n` and has no zero-rate branch, so a rate that is not zero
  is a precondition.
- A handler that guards an input with an early `return` gives no result, modelled as `None`. A division the
  handler does not guard is a precondition.
- The compound calculator counts twelve contributions a year in `totalInvested`, while the formula makes one
  contribution per compounding period. The two agree only for monthly compounding
  (`MonthlyCompoundingEarnsInterest`). For yearly compounding the reported interest can be negative
  (`YearlyCompoundingUnderstatesInterest`). The handler's own comment calls the amount "approx if n=12".

## Model

| member | source | states |
|---|---|---|
| `CompoundInterest.Compound` | assets/js/main.js:16-30 | interest plus amount invested is the total; the amount invested is `p + 12*pmt*t` whatever the compounding frequency |
| `CompoundInterest.CompoundIsSimulation` | assets/js/main.js:22-28 | the future value is the balance after `n*t` periods of growth by `r/n`, each followed by one contribution |
| `CompoundInterest.MonthlyCompoundingEarnsInterest` | assets/js/main.js:28-30 | with monthly compounding the amount invested counts exactly the contributions made, and with a positive rate the interest is not negative |
| `CompoundInterest.YearlyCompoundingUnderstatesInterest` | assets/js/main.js:23-30 | with yearly compounding, 100 a period at 10% for a year reports a total of 100, 1200 invested and -1100 interest |
| `IncomeGoal.RequiredCapital` | assets/js/main.js:46-51 | no result exactly when the return rate is 0; otherwise the capital times the rate is twelve monthly goals |
| `IncomeGoal.RequiredCapitalIsUnique` | assets/js/main.js:51 | a capital yields twelve monthly goals a year at the rate if and only if it is the computed capital |
| `Dividend.Project` | assets/js/main.js:66-70 | the yearly dividend is the amount times the yield; the monthly dividend is a twelfth of it |
| `Dividend.ProjectIsAdditive` | assets/js/main.js:69-70 | the dividends of two holdings add up to the dividends of their sum |
| `SavingsGoal.Solve` | assets/js/main.js:85-101 | no result exactly when the monthly saving is 0; without interest the months times the saving is the goal; the shown figures are the split of the months |
| `SavingsGoal.Split` | assets/js/main.js:100-106 | the years are the last whole year not after the months, the total is the months rounded up, the remaining months round up the truncated remainder and lie from -11 to 12, and are not negative for months that are not negative |
| `SavingsGoal.MonthsToGoal` | assets/js/main.js:91-98 | without interest the months times the saving is the goal |
| `SavingsGoal.MonthsToGoalWithInterest` | assets/js/main.js:94-97 | with interest the months times `ln(1 + r)` is `ln(goal * r / pmt + 1)` |
| `SavingsGoal.LogSolve` | assets/js/main.js:97 | the months times `ln(1 + r)` is `ln(goal * r / pmt + 1)`, the logarithm of the growth the goal needs |
| `SavingsGoal.SolveOfNegativeGoal` | assets/js/main.js:89-101 | a goal of -6 at 1 a month without interest shows -1 years and -6 months against a total of -6 months, which do not add up |
| `SavingsGoal.SplitAddsUp` | assets/js/main.js:100-106 | for months not negative: years `>= 0`, remaining months in 0..12, years*12 plus remaining months equals the total `ceil(months)`, remaining months is 12 exactly when the months past the last whole year exceed 11 |
| `SavingsGoal.SplitCanShowTwelveMonths` | assets/js/main.js:100-101 | 11.5 months is shown as 0 years and 12 months |
| `SavingsGoal.SolveInvertsSeries` | assets/js/main.js:92-98 | if saving `pmt` for `k` months reaches the goal exactly (and the logarithm obeys the power rule there), the solve gives `k` months and a total of `k` |
| `Fire.FireNumber` | assets/js/main.js:122 | the target times the withdrawal rate is the yearly expense |
| `Fire.Project` | assets/js/main.js:116-136 | with positive savings: a year count `<= 100` that is the first year net worth reaches the target, or 100 when no earlier year does; without positive savings: 0 if the target is met, else the unbounded sentinel; always 0 when the target is already met |
| `Fire.TargetWithinSavingsIsReached` | assets/js/main.js:127-131 | with returns and net worth not negative, a target within 100 years of savings is reached by year 100 |
| `Fire.TargetStaysReached` | assets/js/main.js:128-130 | with returns and savings not negative, a reached target stays reached in every later year |
| `EtfSavings.Invest` | assets/js/main.js:151-159 | the gain plus the amount invested is the future value; the amount invested is one payment per month |
| `EtfSavings.InvestIsSimulation` | assets/js/main.js:156-157 | the future value is the balance after investing each month, starting from nothing |
| `EtfSavings.InvestGainsWithPositiveReturn` | assets/js/main.js:157-159 | with a positive return and a payment not negative, the gain is not negative |
| `EtfSavings.InvestAgreesWithMonthlyCompounding` | assets/js/main.js:151-157 | the ETF value equals the compound-interest total with monthly compounding and no principal |
| `LoanComparison.CalcLoan` | assets/js/main.js:176-182 | the payment times the number of months is the total; without interest the total is the amount borrowed |
| `LoanComparison.CalcLoanRepaysLoan` | assets/js/main.js:177-181 | a balance accruing the monthly rate and reduced by one payment a month is exactly zero after the last payment |
| `LoanComparison.CalcLoanCoversPrincipal` | assets/js/main.js:179-181 | with a rate not negative, the total repaid is at least the amount borrowed |
| `LoanComparison.Compare` | assets/js/main.js:187-188 | the difference is not negative; loan A is named exactly when its total is strictly lower (ties name loan B); the named loan plus the difference is the other loan's total |
| `MonthlySaving.RequiredPayment` | assets/js/main.js:209-219 | without interest the payment times the months is the goal |
| `MonthlySaving.RequiredPaymentInvertsSeries` | assets/js/main.js:213-219 | with interest the payment, put into the future-value formula `pmt*((1+r)^m - 1)/r`, gives back the goal |
| `MonthlySaving.RequiredPaymentReachesGoal` | assets/js/main.js:213-219 | saving the payment every month for the whole months reaches the goal exactly, with or without interest |
| `MonthlySaving.RequiredPaymentThroughEtf` | assets/js/main.js:209-219 | investing the required payment in the ETF calculator for the same months projects exactly the goal |
| `NetSalary.TakeHome` | assets/js/main.js:233-237 | the net pay plus the tax is the gross pay; the monthly net is a twelfth of the yearly net |
| `NetSalary.TakeHomeBounded` | assets/js/main.js:236-237 | for a tax rate from 0% to 100% the net pay is between 0 and the gross pay |
| `SideIncome.Plan` | assets/js/main.js:252-268 | with a positive rpm the views times the rpm are a thousand goals, else 0; with a positive price and conversion rate the sales times the price are the goal and the visitors times the conversion rate are the sales, else both 0 |
| `SideIncome.Shown` | assets/js/main.js:270-277 | each estimate is shown exactly when it was computed, as the least whole number not below it |
| `SideIncome.ShownAdViewsMeetGoal` | assets/js/main.js:271-272 | the shown number of views earns at least the goal |
| `SideIncome.ShownSalesMeetGoal` | assets/js/main.js:274-276 | the shown number of sales earns at least the goal, and the shown visitors convert to at least the sales |
| `SideIncome.ShownExample` | assets/js/main.js:257-276 | a goal of 1,000,000 at an rpm of 2,000, a price of 50,000 and a 2% conversion rate shows 500,000 views, 20 sales and 1,000 visitors |
| `Growth.SeriesFormula` | assets/js/main.js:23-26 | for a rate `r` that is not zero, `p*(1+r)^k + pmt*((1+r)^k - 1)/r` is the balance of the period-by-period simulation |
| `Growth.SeriesFromZero` | assets/js/main.js:156-157 | starting from nothing, the future value of the deposits `pmt*((1+r)^k - 1)/r` is the balance of the period-by-period simulation |
| `Growth.AccumulateClosedForm` | assets/js/main.js:157 | the simulated balance satisfies the annuity identity multiplied out by `r`, which holds at a zero rate too |
| `Numbers.Ceil` | assets/js/main.js:101 | `Math.ceil` gives the least integer not below its argument |
| `Numbers.Floor` | assets/js/main.js:100 | `Math.floor` gives the greatest integer not above its argument |
| `Numbers.JsRem` | assets/js/main.js:101 | `%` has the sign of the dividend, is smaller in magnitude than the divisor, and differs from the dividend by a whole multiple of the divisor |
| `Numbers.JsRemOfNonnegative` | assets/js/main.js:101 | for a dividend not negative and a positive divisor, `%` is the remainder of floored division, from 0 up to the divisor |

## Left out

- `assets/js/components.js` is not part of this model. It holds the header and footer custom elements, which only assign HTML and read the current date.
- DOM wiring is not modelled: `addEventListener`, `getElementById`, `preventDefault` and the `innerHTML` templates.
- Formatting is not modelled: `formatCurrency` (`Intl.NumberFormat`), `toLocaleString` and `toFixed` are library calls. The FIRE sentinel is the constructor `Unbounded`, not its message text.
- Parsing is not modelled: `getValue`'s `parseFloat(...) || 0` and `parseInt` are library calls. Inputs arrive as already-parsed reals, with invalid input mapped to 0 by the caller.
- `Math.log` has no Dafny counterpart. The savings-goal solve takes it as the parameter `ln`.
- SavingsGoal.SolveInvertsSeries: characterises the logarithmic months only when the goal is an exact whole-month series value and `ln` obeys the power rule at that point. Nothing else about logarithms is assumed.
- `Math.pow` with an exponent that is not a whole number is not modelled. The compound, ETF, loan and monthly-saving formulas require a whole number of periods (`n*t`, `years*12`, `months`).
- IEEE-754 effects are not modelled: rounding, overflow, and the `NaN` or `Infinity` produced by an unguarded division by zero. The identities hold exactly over `real`s; the JavaScript satisfies them only approximately. Unguarded divisions are preconditions.
- SavingsGoal.SplitAddsUp: states the years/months split only for a month count that is not negative. For negative months the truncating `%` makes years*12 plus remaining months differ from the total (`SolveOfNegativeGoal` shows one such case).
- Numbers.JsRemOfNonnegative: relates `%` to floored division only for a dividend that is not negative. The contract of `JsRem` itself covers every dividend.
- Not proved: that the future value grows with each input, that the zero-rate branches are the limits of the general formulas, and the ten-year loan example with 120 monthly periods.
