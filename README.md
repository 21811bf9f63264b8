# Mosque utility monitor: a verified model of its data and forecasting core

The system monitors the electricity and water consumption of a group of
mosques. Each mosque has meters, and each meter has cumulative readings,
each with a date, a value and a cost. The core turns these readings into
the following:

- daily consumption: each reading minus the previous reading of the same meter;
- totals and per-mosque statistics;
- filtered chart frames with key figures, a daily trend per (date, type)
  and a monthly cost per (month, type);
- a thirty-day linear forecast per meter, with its R² accuracy and an
  over-consumption warning.

It also stores new readings, one at a time from a form or in bulk from a
CSV file. It manages mosques, meters and users and logs users in.

The model is written in Dafny, one module per concern:

- `Tables`: tables as keyed rows in rowid order.
- `Schema`: the four entities and the database snapshot.
- `Calendar`, `Decimal`: day ordinals and `YYYY-MM` labels.
- `RealSeq`, `Sorting`, `Grouping`: sums, a stable sort and group-by sums.
- `Positions`: increasing position lists, which say that a filter keeps
  its rows in their original order, each once.
- `Consumption`: the join, the filters, the per-meter difference and the
  statistics.
- `LeastSquares`: ordinary least squares and R², in exact real arithmetic.
- `Forecast`: the usage forecast.
- `CsvImport`: turning an uploaded table into readings.
- `ReadingStore`: the `Store` class, whose methods update the four tables
  in place.
- `Dashboard`: the decisions of the application page. These are the
  selection, the figures, the groupings, the warning and the manual entry.

Dates are day ordinals as `date.toordinal()` gives them. Values and costs
are exact reals. The password hash and the cell conversions of the CSV
reader are parameters. The properties below are proved by the Dafny
verifier.

## Model

| member | source | states |
|---|---|---|
| Tables.InsertWellFormed | models.py:24 | an insert keeps ids positive and increasing, gives the new row an id no other row has, and appends exactly that row |
| Tables.InsertAllWellFormed | utils.py:245-246 | a batch insert appends exactly the batch, in batch order, and leaves the old rows untouched |
| Tables.DeleteWellFormed | utils.py:191 | deleting by id keeps the remaining ids increasing |
| Tables.DeleteMissing | utils.py:208 | deleting an id that no row has leaves the table unchanged |
| Tables.Delete | utils.py:191 | every remaining row was in the table and does not have the deleted id, and every row with a different id remains |
| Calendar.FromOrdinal | utils.py:124 | the civil date returned is valid and its ordinal is the given day |
| Calendar.MonthLabel | app.py:148 | the `%Y-%m` label is seven characters long with a dash at position 4 |
| Calendar.MonthLabelKeysYearMonth | app.py:148-149 | two dates get the same month label exactly when they have the same year and the same month |
| Sorting.SortSorted | utils.py:59 | sorting by date gives ascending dates (and, through `SortByKey`'s contract, a permutation of the rows) |
| Sorting.SortStable | utils.py:59 | rows with the same date keep their relative order |
| Sorting.SortSum | utils.py:59-65 | sorting does not change the total of a column |
| Grouping.GroupSumSpec | app.py:133 | group-by sum: distinct group keys, exactly the keys of the rows, each total is the sum over the rows with that key, and the totals add up to the column total |
| Consumption.JoinReadings | utils.py:45 | the inner join keeps exactly the readings whose meter and mosque exist, carrying the meter's mosque and type |
| Consumption.JoinKeepsOrder | utils.py:45 | the join is the joinable readings read at strictly increasing positions of the readings table, each joinable reading exactly once, each carrying its own meter's mosque and type |
| Consumption.Where | utils.py:82-89 | a row is kept exactly when it passes every given filter; mosque id 0 is no filter |
| Consumption.WhereKeepsOrder | utils.py:82-89 | the filtered rows are the input read at strictly increasing positions, and a position is read exactly when its row passes the filters |
| Consumption.WhereMultiplicity | utils.py:82-89 | a row passing the filters occurs as often as in the input; no other row occurs |
| Consumption.FirstOfMeterIsZero | utils.py:98 | the first row of each meter gets daily consumption 0 |
| Consumption.DifferenceFromPrevious | utils.py:98 | every later row gets its value minus the previous value of the same meter, with nothing clamped |
| Consumption.DailyPerMeter | utils.py:62 | restricted to one meter, the daily column is the consecutive differences of that meter's values, whatever rows of other meters lie between |
| Consumption.Telescoping | utils.py:64 | the differences of a series add up to its last value minus its first |
| Consumption.MeterTotal | utils.py:62-64 | one meter's daily consumption adds up to its last reading minus its first |
| Consumption.NonDecreasingGivesNonNegative | utils.py:62 | readings that never go down give consumption that is never negative |
| Consumption.ChartDataRows | utils.py:70-102 | the chart frame has one point per reading passing the filters, in query order; it is empty exactly when no joined reading passes; per meter it holds the differences |
| Consumption.ConsumptionStatsSpec | utils.py:43-67 | (0, 0, empty) when nothing matches; otherwise the frame is a date-sorted permutation of the matching readings, the cost total is the readings' total cost, and the consumption total is the sum of the daily column |
| Consumption.ConsumptionStatsPerMeter | utils.py:59-64 | in the statistics frame each meter's consumption adds up to its last reading minus its first, in date order |
| Consumption.ThreeReadingsExample | utils.py:98 | readings 1000, 1050 and 1100 give 0, 50 and 50, which add up to 100 |
| Consumption.RollbackIsNegative | utils.py:98 | a reading below the previous reading of its meter gives negative daily consumption |
| Consumption.RollbackExample | utils.py:98 | readings 1000 then 900 of one meter give -100 |
| LeastSquares.FitResiduals | utils.py:128-129 | the fitted line's residuals are the centred targets minus the slope times the centred feature |
| LeastSquares.NormalEquations | utils.py:128-129 | the fitted line's residuals sum to zero and are orthogonal to the centred feature |
| LeastSquares.FitIsOptimal | utils.py:128-129 | no line has a smaller sum of squared residuals than the fitted one |
| LeastSquares.FitAccuracyBounds | utils.py:132-133 | the in-sample R² of the fitted line lies between 0 and 1 |
| LeastSquares.FitOfExactLine | utils.py:128-133 | data lying exactly on a line is predicted exactly, with R² equal to 1 |
| LeastSquares.FitRecoversLine | utils.py:128-140 | once the data spans two different x values, the fit of exact data is that very line |
| Forecast.ReadingsOf | utils.py:110 | a reading is selected exactly when it is in the table with that meter id |
| Forecast.ReadingsOfKeepsOrder | utils.py:110 | the meter's readings are the table read at strictly increasing positions, and a position is read exactly when its reading has that meter id |
| Forecast.ReadingsOfMultiplicity | utils.py:110 | a reading of the meter occurs as often as it is stored; no other reading occurs |
| Forecast.HistorySorted | utils.py:110 | the meter's history is in date order |
| Forecast.ObservedUsage | utils.py:120-121 | each observed point is the rise since the previous reading, dated on the later reading and tagged historical |
| Forecast.LastDayIsLatest | utils.py:136 | the maximum day is one of the points' days and no point is later |
| Forecast.LastDayOfHistory | utils.py:136 | the latest observed day is the day of the meter's latest reading |
| Forecast.TooFewReadings | utils.py:113-114 | fewer than 30 readings give an empty frame and zero for both numbers |
| Forecast.ForecastOfHistory | utils.py:107-153 | with 30 or more readings the forecast fits the observed usage and extends it from the latest reading's day |
| Forecast.ForecastFrame | utils.py:136-151 | the frame is the observed usage followed by thirty more points; point k of those is dated k+1 days after the latest reading, tagged predicted, and lies on the line fitted to the observed usage |
| Forecast.DatesOrdered | utils.py:136-151 | observed days never decrease, every predicted day is after every observed day, and predicted days are consecutive |
| Forecast.MeanOfFuture | utils.py:140-153 | the mean of the predictions is the line's value 15.5 days after the last day |
| Forecast.ExtrapolateMean | utils.py:153 | the returned mean prediction is the fitted line's value at the middle of the horizon |
| Forecast.ExtrapolateAccuracy | utils.py:132-133 | the accuracy lies between 0 and 1 |
| Forecast.ForecastAccuracy | utils.py:132-133 | a meter's forecast accuracy lies between 0 and 1 |
| Forecast.ExtrapolateExact | utils.py:128-133 | observed usage lying on a line gives accuracy 1 |
| Forecast.ExtrapolateContinuesLine | utils.py:128-151 | observed usage on a line spanning two days is predicted on that same line |
| Forecast.LinearUsageForecast | utils.py:116-133 | a meter whose daily rise is exactly linear in the day is forecast with accuracy 1 |
| Forecast.DeletedMeterStillForecast | utils.py:206-212 | deleting a meter leaves its readings, and its forecast is unchanged |
| CsvImport.ParseRow | utils.py:237-243 | a row converts exactly when each of its cells converts, into the reading of those values, with cost 0 when there is no cost column |
| CsvImport.ParseRowsSuccess | utils.py:236-243 | the batch succeeds exactly when every row converts, and then holds one reading per row in file order |
| CsvImport.ParseRowsFailure | utils.py:251-253 | a failing batch reports the error of its first failing row |
| CsvImport.FailureSticks | utils.py:229-253 | once a prefix of the rows fails, every longer prefix fails with the same error |
| CsvImport.BuildBatch | utils.py:236-243 | the conversion loop returns the batch, or the first row's error |
| CsvImport.MissingColumnRefused | utils.py:232-234 | a file missing meter_id, date or value is refused with the fixed message |
| CsvImport.CostDefaultsToZero | utils.py:241 | without a cost column every imported reading costs 0 |
| CsvImport.SuccessMessageCount | utils.py:250 | the success message is the fixed words around the decimal text of exactly the count |
| ReadingStore.FindUser | utils.py:18 | a user with the name that no earlier user in table order shares; none exactly when no user has the name |
| ReadingStore.MetersOf | utils.py:36-40 | exactly the meters of the mosque |
| ReadingStore.InsertUnique | models.py:45 | adding a user whose name no one has keeps the names unique |
| ReadingStore.LoginComplete | utils.py:16-23 | with unique names, login succeeds exactly for a stored name whose stored hash is the password's hash |
| ReadingStore.Store.LoginUser | utils.py:16-23 | a returned user is the first stored user with the name, and has the password's hash |
| ReadingStore.Store.AddReading | utils.py:155-176 | one reading appended to the readings table; the other tables unchanged; true returned |
| ReadingStore.Store.CreateMosque | utils.py:178-185 | one mosque appended under the next id; the other tables unchanged |
| ReadingStore.Store.DeleteMosque | utils.py:187-195 | the mosque row removed; its meters and readings stay, and none of them joins any more |
| ReadingStore.Store.CreateMeter | utils.py:197-204 | one meter appended under the next id; the other tables unchanged |
| ReadingStore.Store.DeleteMeter | utils.py:206-212 | the meter row removed; its readings stay in the table but no longer join |
| ReadingStore.Store.CreateUser | utils.py:214-225 | refused exactly when the name is taken; otherwise one user with the hashed password is added, who can then log in |
| ReadingStore.Store.ProcessCsvUpload | utils.py:227-253 | all rows or none: on success the batch is appended and the count reported; on failure nothing changes and the error is returned |
| Dashboard.SelectPoints | app.py:111-115 | a point is kept exactly when its mosque is selected or no mosque is, and its type is selected or no type is |
| Dashboard.SelectPointsKeepsOrder | app.py:111-115 | the selection is the chart read at strictly increasing positions, and a position is read exactly when its point is selected |
| Dashboard.SelectPointsMultiplicity | app.py:111-115 | a selected point occurs as often as in the chart; no other point occurs |
| Dashboard.NoFilterShowsAll | app.py:97-115 | without a complete date range and without a selection the frame holds every joined reading |
| Dashboard.SelectionKeepsDaily | app.py:108-115 | the selection keeps the daily consumption that the date-window frame computed |
| Dashboard.SelectionCommutes | app.py:111-115 | because a selection keeps all of a meter's rows or none, selecting after differencing equals differencing only the selected rows |
| Dashboard.DashboardFrameSpec | app.py:97-115 | the dashboard frame is the date-window query differenced over the selected meters only |
| Dashboard.KeyFigures | app.py:119-126 | the figures are shown exactly when the frame is not empty |
| Dashboard.GroupBySpec | app.py:133 | one group per distinct key of the frame, each holding the sum over its points, with totals adding up to the column |
| Dashboard.TrendSpec | app.py:133 | one trend group per (date, type), each total is that group's consumption, and together they give the total consumption |
| Dashboard.MonthlyCostSpec | app.py:148-149 | one cost group per (month, type), each total is that group's cost, and together they give the total cost |
| Dashboard.SameMonthGroup | app.py:148-149 | two points share a monthly group exactly when they have the same type, year and month |
| Dashboard.HistoricalOfObserved | app.py:231 | the historical rows of the forecast frame are exactly the observed usage |
| Dashboard.WarningOfExtrapolate | app.py:231-232 | the warning compares the mean prediction with 1.2 times the mean observed usage |
| Dashboard.WarningOfForecast | app.py:231-232 | for a meter with enough readings the warning is the mean prediction exceeding 1.2 times its mean observed daily usage |
| Dashboard.WarningIsStrict | app.py:232 | exactly 20% above the historical mean does not warn; anything more does |
| Dashboard.UnitPrice | app.py:269 | the displayed unit price is 0.18 for Electricity and 5.0 for Water |
| Dashboard.ManualEntry | app.py:249-278 | for a meter picked among the picked mosque's meters, shows the unit price of that meter's stored type and stores the reading with cost 0; the other tables unchanged |

## Left out

- The Streamlit page layout, the charts, the gauge with its fixed baseline
  of 250, and the CSV download: these are presentation only.
- The data cache (`st.cache_data`): it holds results and does not change them.
- Sessions, transactions and commit failures: each store operation is
  modelled as one transaction that succeeds.
- Floating point: the regression and every sum are exact reals, so the
  rounding of `LinearRegression` and `r2_score` is not modelled.
- `pd.read_csv` and the cell conversions: the uploaded table and the
  converters are parameters, and the `except` branch returns their error
  messages. Padding of short rows by the reader and duplicate column
  names are not modelled.
- Blank value or cost cells in an uploaded file: the reader turns them
  into NaN, `float` keeps NaN, and the row is stored with it. The
  differencing then gives 0 for that row and the next one of its meter,
  and the sums skip it. The model's cell converters return reals, so NaN
  and a stored NULL are not modelled.
- `hash_password`: SHA-256 is a parameter of the store.
- `seed_data` and the start-up initialisation are not part of this model.
- The value `max - min` in `get_consumption_stats` is computed and then
  overwritten. The model leaves it out.
- Grouping.GroupSumSpec: groups come out in the order their keys first
  occur; pandas sorts them by key. Contents and totals are the same.
- Dashboard.TrendSpec: as above, the order of groups is not pandas' sorted order.
- Dashboard.MonthlyCostSpec: as above, the order of groups is not pandas' sorted order.
- Calendar.MonthLabelKeysYearMonth: holds for years below 10000. Every
  year a pandas timestamp can hold is in that range.
- The meter type is a free string in the table. The model restricts it
  to the two values the forms offer, Electricity and Water.
- The mosque selector maps names to ids with a dictionary, so mosques
  with the same name collapse into one entry. The model selects by id.
- Rows with the same date: the application promises no order among them.
  `sort_values` uses an unstable quicksort, and ORDER BY date fixes no
  order among equal dates. The model's stable sort in rowid order is one
  admissible choice. A query without ORDER BY is likewise taken to return
  rows in rowid order.
- `add_reading` re-adds the same object after closing its session. The
  model treats that as the single insert it amounts to.
- Foreign keys are not enforced: readings may name missing meters and
  meters missing mosques. Such rows drop out of the join.
- The entry form's unit price is only displayed. As in the application,
  the stored cost is 0 whatever the price.
