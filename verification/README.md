# Accountability scoring engine — Dafny model

This project models the scoring core of a state education agency's
accountability system. That core rates every public school each fiscal year
under two systems.

- **Federal CSI/ATSI.** Schools are scored on up to seven indicators:
  - Proficiency;
  - English-learner (EL) proficiency and growth;
  - chronic absenteeism (CA);
  - Growth;
  - Graduation Rate;
  - Dropout Rate.

  Each school's total is earned points over eligible points. In an
  identification year, Title I schools below the 5th percentile of totals
  are identified for comprehensive support (CSI).

- **State A–F.** Schools are scored under a k-8, a 9-12 or an Alt 9-12
  model on these indicators:
  - Proficiency;
  - Growth;
  - EL;
  - Acceleration/Readiness;
  - Graduation Rate and Graduation Rate Improvement;
  - the subgroup-improvement indicators;
  - College and Career Readiness (CCRI);
  - Growth to Graduation.

  Bonus points are added. The percentage earned plus bonus gets a letter
  from the model's cut-score bands. Not-rated ("NR") and pending ("P")
  overrides apply, non-typical schools get an enrolment-weighted hybrid,
  and each district gets the rounded mean of its schools' grade points.

Two preparation steps of the static file are also modelled:
- the school-type file, which gives grade spans, type codes and the federal
  and state models;
- the growth file, which gives SGP categories, achievement levels and
  de-duplication.

## How the code is represented

- One Dafny module per source module: `FederalEl`, `StateGrowth`,
  `SchoolType` and so on.
- Shared pieces:
  - `Wrappers`: `Option`, `Result`, null-skipping sums and suppression;
  - `Numeric`: rounding, means, variance, sorting and numpy's "midpoint"
    percentile;
  - `Rules`: `.loc` assignments where the last rule wins, and `np.select`
    where the first wins;
  - `Dedup`: `sort_values` followed by `duplicated`;
  - `ElBanding`: the EL reference statistics and bands.
- Rates and points are `real`. A pandas null is `None`.
- Each scorer is a pure function over rows. The rows are datatypes holding
  the columns the scorer reads.

## Model

| member | source | states |
|---|---|---|
| FederalConfig.ModelOfCode | FederalCode/COMPONENTS.py:102-106 | exactly the codes 1 to 5 name a federal model, and each names the model whose code it is |
| FederalConfig.CodeRoundTrip | FederalCode/COMPONENTS.py:102-106 | decoding a model's code gives the model back |
| FederalConfig.WeightsWhole | FederalCode/COMPONENTS.py:70-97 | every federal weight is a whole number of points between 0 and 80 |
| FederalConfig.WeightsNonnegative | FederalCode/COMPONENTS.py:70-97 | a weight, absent read as 0, lies in 0..80 |
| FederalConfig.WeightFraction | FederalCode/DROPOUT.py:51-55 | the multiplier a scorer uses is the component weight over 100, present exactly for the models that weight the component |
| FederalConfig.WeightsSumTo100 | FederalCode/COMPONENTS.py:70-97 | each of the five models' weights adds up to 100 |
| FederalConfig.ComponentPresence | FederalCode/COMPONENTS.py:71-96 | k-2 weights only Proficiency, EL and CA; Graduation Rate only in 9-12 and k-12; Dropout Rate only in 9-12, k-11 and k-12; Growth only in k-8, k-11, k-12 |
| FederalConfig.ProficiencyGradeFacts | FederalCode/COMPONENTS.py:128-132 | k-2 scores only pseudo-grade 101, 9-12 only grade 11, k-11 and k-12 add grade 11 to grades 3-8 |
| FederalConfig.GradeMapsMatchWeights | FederalCode/COMPONENTS.py:46-58 | a model has CA (Growth) grades exactly when it weights CA (Growth) |
| FederalConfig.Relabel | FederalCode/COMPONENTS.py:117-126 | an unmapped subgroup value is left as it was |
| FederalConfig.EthnicityRelabel | FederalCode/COMPONENTS.py:120-126 | an ethnicity letter gets a label exactly when it is one of the seven mapped letters; 'U' stays unmapped; distinct letters get distinct labels |
| FederalConfig.FlagRelabel | FederalCode/COMPONENTS.py:117-119 | a flag column labels exactly the value 1 |
| FederalConfig.StripPercent | FederalCode/COMPONENTS.py:187 | the result holds no '%', is no longer than the input, and text without '%' is unchanged |
| FederalConfig.StripPercentAppend | FederalCode/COMPONENTS.py:187 | a trailing '%' on '%'-free text is removed and nothing else changes |
| FederalConfig.ParseUnsigned | FederalCode/COMPONENTS.py:188 | an unsigned decimal parses exactly when it has a digit, digits before its first point and digits after it; its value is non-negative, and a digit string reads as its decimal value |
| FederalConfig.ParseNumber | FederalCode/COMPONENTS.py:188 | blank text does not parse (coerced to null) |
| FederalConfig.Trim | FederalCode/COMPONENTS.py:188 | trimmed text neither starts nor ends with white space, is empty exactly for blank text, and text without surrounding white space is unchanged |
| FederalConfig.ParseUnsignedText | FederalCode/COMPONENTS.py:188 | an unsigned decimal is a number of the same value |
| FederalConfig.ParsePlusSign | FederalCode/COMPONENTS.py:188 | an unsigned decimal keeps its value behind a plus sign |
| FederalConfig.ParseMinusSign | FederalCode/COMPONENTS.py:188 | an unsigned decimal behind a minus sign reads as its negation |
| FederalConfig.ParseTrimmed | FederalCode/COMPONENTS.py:188 | text reads as the same number with its surrounding white space removed |
| FederalConfig.ParsePadded | FederalCode/COMPONENTS.py:188 | white space around an unsigned decimal is ignored |
| FederalConfig.ParseTrailingPoint | FederalCode/COMPONENTS.py:188 | digits followed by a bare point read as the digits ("5." is 5) |
| FederalConfig.ParseLeadingPoint | FederalCode/COMPONENTS.py:188 | digits after a bare point read as a fraction (".5" is 0.5) |
| FederalConfig.ParseBareSymbols | FederalCode/COMPONENTS.py:188 | a sign or a point alone is not a number |
| FederalConfig.CleanCell | FederalCode/COMPONENTS.py:178-190 | a numeric cell keeps its value and a null stays null |
| FederalConfig.CleanColumn | FederalCode/COMPONENTS.py:178-190 | the cleaned column has the input's length and cleans each cell in place |
| FederalConfig.NumericColumnUnchanged | FederalCode/COMPONENTS.py:181-185 | a column of numbers and nulls comes back with the same values |
| FederalConfig.ParseShowNat | FederalCode/COMPONENTS.py:186-188 | a whole number written in decimal reads back as itself, with or without a trailing '%' |
| StateConfig.WeightsSumTo100 | StateCode/COMPONENTS.py:96-118 | the k-8, 9-12 and Alt 9-12 weights each add up to 100 |
| StateConfig.TradGradRateWeight | StateCode/COMPONENTS.py:123-126 | exactly rate types 4 to 7 have a traditional graduation-rate weight |
| StateConfig.TradGradRateWeightsSum | StateCode/COMPONENTS.py:123-126 | the rate-type weights 5, 4, 2.5 and 0.5 add up to 12, more than the 9-12 Graduation Rate weight they are capped at |
| StateConfig.ProficiencyWeight | StateCode/COMPONENTS.py:138-143 | a performance level's weight lies in 0..1.3 and the proficient level weighs 1 |
| StateConfig.StabilityWeightsSum | StateCode/proficiency.py:418-425 | for one, two or three FAY levels the stability weights add up to the k-8 Proficiency weight of 30 |
| StateConfig.GrowthBandWeight | StateCode/COMPONENTS.py:79-92 | a band weight lies in 0..2, is 0 exactly for low growth and 1 for average growth |
| StateConfig.CorrectGradeIsIntended | StateCode/COMPONENTS.py:224-229 | the four overwrite passes leave grades below 9 alone, give grade 9+i to a high-school record of cohort fiscal_year+3-i, and 111 to any other grade 9-12 record; the cohort is kept |
| StateConfig.CorrectHighSchoolGrades | StateCode/COMPONENTS.py:224-229 | every record of the file gets its intended grade, keeps its cohort, and records below grade 9 come back unchanged; the input is not changed (a new sequence is returned) |
| Columns.MissingColumns | FederalCode/proficiency.py:65-66 | the missing list holds exactly the required columns the frame lacks, and no more entries than required |
| Columns.CheckColumns | FederalCode/proficiency.py:65-67 | the check passes exactly when every required column is present; otherwise the error names every missing column and only those |
| Columns.MissingColumnsShrink | StateCode/GTG.py:52-54 | adding a column never lengthens the list of missing columns |
| Numeric.RoundHalfEven | FederalCode/EL.py:285 | whole-number rounding moves a value by at most one half and sends an exact half to the even neighbour |
| Numeric.RoundWholeMonotone | FederalCode/EL.py:285 | whole-number rounding never reverses the order of two values |
| Numeric.RoundWholeInteger | FederalCode/CA.py:91 | whole numbers round to themselves |
| Numeric.RoundWholeBetween | FederalCode/CA.py:91 | a value between two whole numbers rounds to a value between them |
| Numeric.RoundWholeAtLeast | StateCode/bonus_points.py:320 | a value rounds to at least n exactly above n - 0.5, or at n - 0.5 for an even n |
| Numeric.WholePercent | FederalCode/CA.py:91 | a rounded part-of-whole percent lies in 0..100, is 0 for no part and 100 for the whole |
| Numeric.RoundToMonotone | StateCode/SGI.py:346 | rounding to p places never reverses the order of two values |
| Numeric.RoundToClose | StateCode/SGI.py:346 | rounding to p places moves a value by less than half a unit of the last place |
| Numeric.RoundToInteger | StateCode/SGI.py:346 | whole numbers are already rounded to any number of places |
| Numeric.Percentile | FederalCode/EL.py:296-297 | numpy's midpoint percentile of a sorted sample lies between its smallest and largest value |
| Numeric.PercentileMonotone | FederalCode/EL.py:296-298 | a higher percentile of the same sample is never smaller, so Q1 <= Q3 and the IQR is non-negative |
| Numeric.SampleVarianceNonnegative | FederalCode/EL.py:304 | the sample variance the standard deviation is taken from is never negative |
| ElBanding.ReferenceSample | FederalCode/EL.py:294-295 | the reference distribution has one value per school in the reference, in school order, each that school's rate, and every value is positive |
| ElBanding.ReferenceSchools | FederalCode/EL.py:292-295 | a school is in the reference, as often as it occurs, exactly when its rate is positive and it meets the N-count |
| ElBanding.ReferenceSampleMembers | FederalCode/EL.py:292-295 | every school in the reference contributes its rate, and every value of the distribution is the rate of such a school |
| ElBanding.IqrFence | FederalCode/EL.py:296-299 | the fence runs from Q1 - 1.5 IQR to Q3 + 1.5 IQR and contains both quartiles |
| ElBanding.Trim | StateCode/EL.py:148 | the trimmed sample keeps, in order, exactly the values inside the fence (strict for the state, inclusive for the federal model) |
| ElBanding.TrimCounts | StateCode/EL.py:148 | a value inside the fence is kept as often as it occurs, and no other value is kept |
| ElBanding.StrictTrimWithinInclusive | StateCode/EL.py:148 | every value the state's strict fence keeps, the federal inclusive fence keeps too |
| ElBanding.StrictTrimEmptyWithoutSpread | StateCode/EL.py:143-148 | when the quartiles coincide (IQR 0) the strict fence keeps nothing |
| ElBanding.InclusiveTrimNonempty | FederalCode/EL.py:296-301 | the inclusive fence keeps a value of every sorted sample of one value or of three or more |
| ElBanding.TwoDistinctValuesTrimEmpty | FederalCode/EL.py:296-301 | a sample of two different values keeps nothing even under the inclusive fence, because both lie outside the fence the midpoint quartiles give |
| ElBanding.SampleStd | FederalCode/EL.py:304 | the sample standard deviation exists exactly for two or more values |
| ElBanding.SampleStdValue | FederalCode/EL.py:304 | the deviation is the square root of the squared deviations from the mean over one less than the sample size |
| ElBanding.Trimmed | FederalCode/EL.py:296-301 | the values entering the statistics come from the reference sample |
| ElBanding.ReferenceStats | FederalCode/EL.py:301-304 | the mean exists exactly for a non-empty trimmed sample and is the sum of the kept values over their number; the deviation exists exactly for two or more kept values and is the square root of the squared deviations from the mean over one less than their number |
| ElBanding.ReferenceMeanInsideFence | FederalCode/EL.py:296-303 | the reference mean lies inside the fence |
| ElBanding.FederalReferenceHasMean | FederalCode/EL.py:296-303 | a federal sample of one value, or of three or more, always has a mean |
| ElBanding.Band | FederalCode/EL.py:315-327 | points are at most 5; 5 exactly when the rate meets the mean; no value only for a non-zero rate below the lowest cut |
| ElBanding.BandIsCutsMet | FederalCode/EL.py:315-327 | with descending cuts, a non-zero rate earns as many points as the cuts it meets (none when it meets none) |
| ElBanding.BandMonotone | FederalCode/EL.py:315-327 | a higher non-zero rate never earns fewer points |
| ElBanding.FederalCuts | FederalCode/EL.py:318-326 | the top cut is the mean, the cuts descend for a non-negative deviation, and without a deviation only the mean cut exists |
| ElBanding.FederalStats | FederalCode/EL.py:303-304 | the rounded statistics exist exactly when the unrounded ones do |
| ElBanding.FederalPoints | FederalCode/EL.py:407-419 | points are at most 5, and with no reference mean only a zero rate gets points (0) |
| ElBanding.StateCuts | StateCode/EL.py:127-137 | the top cut is the mean rounded like the rate, and without a deviation only the mean cut exists |
| ElBanding.StateCutsDescending | StateCode/EL.py:127-137 | rounding keeps the state cuts in descending order |
| ElBanding.StatePoints | StateCode/EL.py:155-157 | only a school meeting the N-count with a rate gets points, at most 5, and one whose rounded rate is 0 always gets points |
| ElBanding.StatePointsMonotone | StateCode/EL.py:127-137 | a higher state rate never earns fewer points, because rounding is monotone |
| FederalEl.Select | FederalCode/EL.py:64-72 | exactly the records of the model's EL grades and school model that are EL, EL-FAY and ADM-integrity records are kept |
| FederalEl.ElStudents | FederalCode/EL.py:75-77 | one record per (student, school), every selected student keeps one, and the kept one has the highest grade and then the highest EL proficiency level |
| FederalEl.ElStudentsProperties | FederalCode/EL.py:75-77 | every selected (student, school) keeps a record, and it ranks at least as high as each of its records |
| FederalEl.SchoolModelRecords | FederalCode/EL.py:280-282 | a school's records of one EL model come from the de-duplicated file and belong to that school and model |
| FederalEl.SchoolRecordsDistinctStudents | FederalCode/EL.py:282 | within one school the de-duplicated records are of distinct students, so the record count is the distinct EL-FAY student count |
| FederalEl.Reclassified | FederalCode/EL.py:283 | the reclassified count is the number of records at EL proficiency level 4, so at most the record count |
| FederalEl.PercentProficient | FederalCode/EL.py:285 | the whole-number percent proficient lies in 0..100, is 0 with nobody reclassified and 100 with everybody |
| FederalEl.PercentGrowth | FederalCode/EL.py:374-378 | percent growth is non-negative and 0 when nobody gained a level |
| FederalEl.GrowthNumeratorAppend | FederalCode/EL.py:365-367 | adding a student adds exactly that student's levels gained to the numerator |
| FederalEl.UntestedStudentLowersGrowth | FederalCode/EL.py:361-378 | a student without a growth record still enters the denominator, so adding one never raises percent growth |
| FederalEl.SchoolPoints | FederalCode/EL.py:328-333 | a school's points are at most 5 and a school with a 0 rate always gets points |
| FederalEl.ProfAndGrowth | FederalCode/EL.py:205 | proficiency plus growth points, a missing part as 0, lies in 0..10 |
| FederalEl.WeightedPercent | FederalCode/EL.py:242-243 | a model's share is its students per 100 EL-FAY students rounded to 2 places: within half a hundredth of the exact share, 0 for no students and 100 for all of them |
| FederalEl.Contribution | FederalCode/EL.py:246-247 | a model contributes exactly when the school has records of it: its share times its proficiency-plus-growth points over 100, between 0 and a tenth of its share |
| FederalEl.OverallPoints | FederalCode/EL.py:248-252 | the overall EL points are null exactly when the school's EL-FAY total is under N, and otherwise are the sum of the present contributions rounded to 2 places, within 0..10 |
| FederalEl.SharesAddTo100 | FederalCode/EL.py:242-243 | the two unrounded shares add up to 100 |
| FederalEl.OverallBound | FederalCode/EL.py:246-248 | the rounded share-weighted sum stays within 0..10 despite rounding the shares |
| FederalEl.OneModelScoresItsPoints | FederalCode/EL.py:242-252 | a school with EL-FAY students in one model only scores that model's points rounded to 2 places, its share being 100% |
| FederalEl.EqualModelsScoreTheirPoints | FederalCode/EL.py:242-252 | a school whose two models earn the same points p scores p within 0.006, the error of rounding the shares and the sum |
| FederalEl.EqualContributionsNear | FederalCode/EL.py:242-247 | two models with the same points p contribute p within 0.001 between them |
| FederalEl.WeightedPercentsNear | FederalCode/EL.py:242-243 | the two rounded shares add up to 100 within a hundredth |
| FederalEl.ShareErrorBound | FederalCode/EL.py:246-247 | shares adding up to 100 within a hundredth, applied to one value p in 0..10, give p within 0.001 |
| FederalEl.RoundedNear | FederalCode/EL.py:248 | rounding to 2 places a value within 0.001 of p stays within 0.006 of p |
| FederalCa.Select | FederalCode/CA.py:33-37 | exactly the records of the model's CA grades with ADM integrity 1 are kept |
| FederalCa.CaStudents | FederalCode/CA.py:42-43 | one record per (student, school), and exactly the selected (student, school) pairs keep one |
| FederalCa.NumAbsent | FederalCode/CA.py:206-207 | no more students are chronically absent than there are students |
| FederalCa.Points | FederalCode/CA.py:208-212 | points are null exactly under N; otherwise they lie in 0..weight, equal the weight with nobody absent and 0 with everybody absent |
| FederalCa.SchoolPoints | FederalCode/CA.py:206-212 | a school's CA points are null exactly when it has fewer than N students, and otherwise lie between 0 and the model's CA weight |
| FederalCa.WorkedExample | FederalCode/CA.py:208-210 | 25 students of whom 5 are chronically absent, under weight 10, earn 8 points |
| FederalConfig.SubgroupRecords | FederalCode/CA.py:86-89 | a subgroup's records are exactly the school's records carrying that subgroup value, in order, and all of them when every record does |
| FederalCa.AtsiPoints | FederalCode/CA.py:89-100 | the dropped groups (flag 0, ethnicity 'U') get no points, and points need N students in the subgroup |
| FederalCa.AtsiMatchesSummary | FederalCode/CA.py:96-100 | a subgroup holding all of a school's students scores exactly the school's CSI summary points |
| FederalDropout.Points | FederalCode/DROPOUT.py:123-127 | points are null exactly when the rate is missing or fewer than N were enrolled; otherwise they lie in 0..weight, the full weight for a 0 rate |
| FederalDropout.PointsAntitone | FederalCode/DROPOUT.py:88-90 | a lower dropout rate never earns fewer points |
| FederalDropout.DrilldownOf | FederalCode/DROPOUT.py:138-143 | the fiscal-year copy keeps the unsuppressed rate, while the displayed rate is null exactly when missing or under N |
| FederalGraduation.ScoredModels | FederalCode/GRADUATION.py:43-62 | a scored row (4-year rate, last fiscal year's cohort, labelled subgroup, a model with a graduation weight) belongs to a 9-12 or k-12 school |
| FederalGraduation.Points | FederalCode/GRADUATION.py:113-117 | points are null exactly when the rate is missing or the cohort is under N; otherwise they lie in 0..weight, the full weight for a 100% rate |
| FederalGraduation.PointsMonotone | FederalCode/GRADUATION.py:79-81 | a higher graduation rate never earns fewer points |
| FederalGraduation.DrilldownOf | FederalCode/GRADUATION.py:126-133 | the cohort-named copy keeps the unsuppressed rate, while the displayed rate is null exactly when missing or under N |
| FederalGrowth.GrowthGrade | FederalCode/GROWTH.py:44-45 | a record of the ACT cohort is filed as grade 11 whatever its grade; any other grade-11 record becomes 111 and other grades stay |
| FederalGrowth.OnlyActCohortInGrade11 | FederalCode/GROWTH.py:44-45 | a grade-11 record outside the ACT cohort falls outside every model's growth grades |
| FederalGrowth.Sgps | FederalCode/GROWTH.py:216 | the SGP sample holds each record's SGP, in order |
| FederalGrowth.MedianWithin | FederalCode/GROWTH.py:216 | the median of values within bounds lies within those bounds |
| FederalGrowth.SchoolMedian | FederalCode/GROWTH.py:215-216 | a school's median SGP lies in 0..100 |
| FederalGrowth.Points | FederalCode/GROWTH.py:221-226 | growth points are null exactly when the school has fewer than N distinct FAY students, and otherwise lie between 0 and the model's Growth weight |
| FederalGrowth.UniformMedian | FederalCode/GROWTH.py:216 | a school whose students all have one SGP has that median |
| FederalGrowth.PointsAtExtremes | FederalCode/GROWTH.py:225 | all SGPs 100 earn the full Growth weight and all SGPs 0 earn 0 |
| FederalGrowth.AtsiPoints | FederalCode/GROWTH.py:99-109 | the dropped groups get no points, points need N students in the subgroup, and lie between 0 and the Growth weight |
| FederalGrowth.AtsiMatchesSummary | FederalCode/GROWTH.py:99-109 | a subgroup holding all of a school's records scores exactly the school's summary points |
| FederalGrowth.Bin | FederalCode/GROWTH.py:17-22 | a histogram bin number is at most 4 |
| FederalGrowth.BinMatchesEdges | FederalCode/GROWTH.py:17-22 | an SGP falls in bin k exactly when it lies in (edge k, edge k+1], with (-0.001, 19] first, and in none outside (-0.001, 100] |
| FederalProficiency.CheckFrame | FederalCode/proficiency.py:65-67 | a static file passes exactly when it has every required column; otherwise the error lists every missing column and only those |
| FederalProficiency.ReportedGrade | FederalCode/proficiency.py:82-83 | pseudo-grade 101 is reported as grade 3 and every other grade is kept |
| FederalProficiency.NumProficient | FederalCode/proficiency.py:135 | no more students are proficient than were FAY-tested |
| FederalProficiency.ExpectedTested | FederalCode/proficiency.py:198-210 | the expected count is floor(0.95 x twice the distinct students enrolled), at least 1 for a school with students |
| FederalProficiency.Multiplier | FederalCode/proficiency.py:210 | the multiplier exists exactly when students were enrolled, and times the expected count gives the number tested |
| FederalProficiency.MultiplierBelowOne | FederalCode/proficiency.py:210 | the multiplier is below (above) 1 exactly when fewer (more) were tested than expected |
| FederalProficiency.PercentTested | FederalCode/proficiency.py:208 | percent tested exists exactly when students were enrolled, and is the tested count per 100 of twice the enrolled students |
| FederalProficiency.CsiMultiplier | FederalCode/proficiency.py:203-212 | the multiplier is null exactly when the school has no students (the null the merge leaves); otherwise the k-2 model's is forced to 1 and other models use the computed one |
| FederalProficiency.CsiPercentTested | FederalCode/proficiency.py:212 | the k-2 model's percent tested is null; other models use the computed one |
| FederalProficiency.DrilldownPercent | FederalCode/proficiency.py:135-136 | the drilldown percent exists exactly when someone was FAY-tested, lies in 0..100, and is levels 3 and 4 per 100 FAY-tested |
| FederalProficiency.Points | FederalCode/proficiency.py:314-334 | points are null exactly under 2N FAY-tested (or without a multiplier); otherwise they are the proficient share times the multiplier times the weight, between 0 and weight x multiplier |
| FederalProficiency.ProductBounds | FederalCode/proficiency.py:331 | a share in 0..1 times a non-negative multiplier and weight stays within weight x multiplier |
| FederalProficiency.NoUpperClamp | FederalCode/proficiency.py:331-334 | a school that tests more students than expected can score above its Proficiency weight: points are not clamped |
| FederalProficiency.K2WithinWeight | FederalCode/proficiency.py:212-331 | with the multiplier forced to 1 a k-2 school never scores above its weight of 80 |
| FederalProficiency.PointsMonotone | FederalCode/proficiency.py:314-331 | more proficient students never lower the points |
| FederalProficiency.SchoolPoints | FederalCode/proficiency.py:328-334 | a scored school had at least 2N FAY-tested students; its points are non-negative, at most 80 for k-2 |
| FederalProficiency.AtsiPoints | FederalCode/proficiency.py:436-443 | the dropped groups get no points, points need 2N FAY-tested students in the subgroup, and are non-negative |
| FederalProficiency.AtsiMatchesSummary | FederalCode/proficiency.py:436-443 | outside k-2, a subgroup holding all of a school's records scores exactly the school's summary points |
| FederalProficiency.GetAllPairs | FederalCode/proficiency.py:625-633 | the list holds [], every [x], every [y] (when l1 is non-empty) and every [x, y], has length 1 + l1 (1 + 2 l2), and nothing else |
| FederalProficiency.PairsWith | FederalCode/proficiency.py:629-633 | one x of the first list adds [x], then every [y] and [x, y] for y in the second list, 1 + 2 l2 groupings and nothing else |
| FederalTotals.TotalPointsEarned | FederalCode/ADEConnect.py:390-427 | the total is null exactly when no used component is both scored and weighted (eligible 0, so 0/0), and otherwise times the eligible points equals 100 x the earned points |
| FederalTotals.EarnedWithinEligible | FederalCode/ADEConnect.py:394-417 | with each score within its weight, earned points (nulls as 0) lie between 0 and the eligible points |
| FederalTotals.RatioIsPercentage | FederalCode/ADEConnect.py:427 | a part of a positive whole, as a percentage, lies in 0..100 and is 100 for the whole |
| FederalTotals.TotalIsPercentage | FederalCode/ADEConnect.py:427 | with each score within its weight the total lies in 0..100 |
| FederalTotals.FullScoresEarnEligible | FederalCode/ADEConnect.py:394-417 | full marks on every scored component earn exactly the eligible points |
| FederalTotals.FullScoresTotal100 | FederalCode/ADEConnect.py:427 | full marks on every scored component give a total of 100 |
| FederalTotals.WeightPositive | FederalCode/COMPONENTS.py:70-97 | every weight a model has is positive |
| FederalTotals.EligibleZeroIffUnscored | FederalCode/ADEConnect.py:402-417 | eligible points are 0 exactly when no used component is scored under a weight the model has; ignored and absent components count 0 |
| FederalTotals.ScoredComponentGivesTotal | FederalCode/ADEConnect.py:402-427 | one scored, weighted, used component makes the eligible points at least its weight, so the total exists |
| FederalTotals.EligibleNonnegative | FederalCode/ADEConnect.py:402-417 | eligible points are never negative |
| FederalTotals.AtsiTotal | FederalCode/ADEConnect.py:640-675 | a subgroup's total is null exactly when it is scored on no used weighted component, and lies in 0..100 when its scores are within the weights |
| FederalTotals.Threshold | FederalCode/ADEConnect.py:898-902 | the threshold is null exactly for an empty sample; otherwise it is the midpoint 5th percentile of the sorted present totals and lies between two of them |
| Numeric.PercentileSplits | FederalCode/ADEConnect.py:898-902 | in a sorted sample every value up to the percentile's lower position is at most the percentile and every value from its upper position on at least it |
| FederalTotals.Identify | FederalCode/ADEConnect.py:341-357 | only Title I schools get a "Yes" or "No"; in an identification year "Yes" exactly when the total is strictly below the threshold, in other years exactly when also previously identified |
| FederalTotals.PriorThreshold | FederalCode/ADEConnect.py:97 | the only prior-year threshold is 21.99, for the fiscal year after 2022 |
| FederalTotals.TopSampleSchoolNotIdentified | FederalCode/ADEConnect.py:341-346 | when a threshold exists, some school of the sample is at or above it and is "No" in an identification year |
| FederalTotals.SampleSchoolsHaveTotals | FederalCode/ADEConnect.py:898-902 | every school of the threshold sample has a total when Proficiency is used |
| StateEl.Eligibles | StateCode/EL.py:30-32 | exactly the EL, EL-FAY records are kept |
| StateEl.ElStudents | StateCode/EL.py:35-37 | one record per (student, school), every eligible student keeps one, and the kept one ranks at least as high as every eligible record of the same student and school (highest grade, then highest EL proficiency level), is the first of those in file order, and every such chosen record is kept |
| StateEl.SchoolModelRecords | StateCode/EL.py:38-45 | a school's records of one model belong to that school and lie in the model's EL grades |
| StateEl.PercentProficient | StateCode/EL.py:123 | percent proficient is a ratio over students tested (not EL-FAY students), null when none were tested |
| StateEl.W2Count | StateCode/EL.py:163-169 | no more students have a growth record than there are records |
| StateEl.PercentGrowth | StateCode/EL.py:163-194 | percent growth is levels gained per student with a growth record, null when no student has one |
| StateEl.CountsAppend | StateCode/EL.py:163-169 | adding a student adds one growth record (when it has one) and its levels gained |
| StateEl.UntestedStudentIgnored | StateCode/EL.py:163 | a student without a growth record leaves percent growth unchanged, unlike the federal rule |
| StateEl.ProficiencyPoints | StateCode/EL.py:155-157 | proficiency points need at least N students tested and are at most 5 |
| StateEl.GrowthPoints | StateCode/EL.py:227-229 | growth points need at least N students with a growth record and are at most 5 |
| StateEl.TotalPoints | StateCode/EL.py:71-73 | total EL points exist exactly when both parts do and are their sum |
| StateEl.ModelStats | StateCode/EL.py:141-152 | a model has a statewide mean only when its reference sample is non-empty |
| StateProficiency.CheckFrame | StateCode/proficiency.py:58-60 | the frame is accepted exactly when every required column is present; otherwise the error lists exactly the missing ones |
| StateProficiency.AddTested | StateCode/proficiency.py:395-396 | summing the level counts of two groups sums the students tested |
| StateProficiency.WeightedProficient | StateCode/proficiency.py:399-400 | the weighted count of proficient students lies between 0 and 1.3 times the students tested |
| StateProficiency.PercentProficient | StateCode/proficiency.py:279-280 | percent proficient exists exactly when someone was tested, lies in 0..130, and times the students tested equals the weighted count times 100 |
| StateProficiency.PercentProficientExtremes | StateCode/proficiency.py:279-280 | all Proficient gives 100, all Highly Proficient 130, all Minimally Proficient 0 |
| StateProficiency.Multiplier | StateCode/proficiency.py:144-154 | the percent-tested multiplier exists exactly for a model with enrolled students and scales 95% of them to the students tested (assessments over two) |
| StateProficiency.MultiplierAgainstOne | StateCode/proficiency.py:154 | the multiplier is below 1 exactly when fewer than 95% of the enrolled were tested and above 1 exactly when more were |
| StateProficiency.PercentTested | StateCode/proficiency.py:153 | percent tested exists exactly for a model with enrolled students and is students tested per 100 enrolled |
| StateProficiency.CappedShare | StateCode/proficiency.py:403-405 | points lie in 0..weight and reach the full weight exactly at a percent of 100 or more |
| StateProficiency.ShareAgainstWeight | StateCode/proficiency.py:403-405 | the uncapped share reaches the weight exactly at 100 percent |
| StateProficiency.RegularPoints | StateCode/proficiency.py:396-408 | regular points are null exactly below the N-count of FAY students or for a school without FAY, tested or enrolled students (a row the merges drop) or without counted assessments; otherwise they lie in 0..weight and are the full weight exactly when the multiplied percent reaches 100 |
| StateProficiency.RegularPointsValue | StateCode/proficiency.py:399-405 | regular points are the weight share of percent proficient times the multiplier |
| StateProficiency.AddNone | StateCode/proficiency.py:214-219 | adding an empty group changes no count |
| StateProficiency.EmptyIsNone | StateCode/proficiency.py:214-219 | a group with nobody tested is the empty group |
| StateProficiency.AddShift | StateCode/proficiency.py:230-232 | merging 3-into-2 and 2-into-1 together regroups the same students |
| StateProficiency.FoldSmallBounds | StateCode/proficiency.py:213-219 | after folding, the 3-year and 2-year groups are each empty or at least twice the N-count |
| StateProficiency.FoldInto2Bound | StateCode/proficiency.py:214 | folding 3-year into 2-year leaves the 3-year group empty or at least twice the N-count |
| StateProficiency.FoldInto1Bound | StateCode/proficiency.py:218 | folding 2-year into 1-year leaves the 2-year group empty or at least twice the N-count and keeps the 3-year group |
| StateProficiency.FoldSmallTotal | StateCode/proficiency.py:213-219 | folding never loses or duplicates a student: the total counts are unchanged |
| StateProficiency.RegroupTotal | StateCode/proficiency.py:221-232 | regrouping by the number of levels meeting the N-count keeps the total counts |
| StateProficiency.CollapseTotal | StateCode/proficiency.py:213-232 | folding then regrouping keeps the total counts |
| StateProficiency.RegroupAllToOne | StateCode/proficiency.py:227-228 | when one level meets the N-count everything becomes one 1-year group |
| StateProficiency.ShiftSizes | StateCode/proficiency.py:230-232 | shifting 3 to 2 and 2 to 1 when two levels meet the N-count yields a well-shaped pair |
| StateProficiency.RegroupShiftDown | StateCode/proficiency.py:230-232 | with two qualifying levels including the 3-year one, the shifted groups are well shaped |
| StateProficiency.RegroupShifted | StateCode/proficiency.py:230-232 | that shift puts 1- and 2-year students together at level 1 and the 3-year students at level 2 |
| StateProficiency.KeepSizes | StateCode/proficiency.py:233 | groups left as they are (0 or 3 qualifying levels, or 2 without the 3-year one) are well shaped |
| StateProficiency.RegroupShape | StateCode/proficiency.py:221-233 | after folding, regrouping always gives well-shaped levels |
| StateProficiency.CollapseShape | StateCode/proficiency.py:213-233 | the full fold-and-regroup always yields contiguous levels starting at 1 |
| StateProficiency.StabilityPercent | StateCode/proficiency.py:418-441 | the stability percent times 30 is the sum of each FAY level's percent proficient (0 when missing) times the stability weight of that level for the school's number of levels, and is never negative |
| StateProficiency.UniformStabilityPercent | StateCode/proficiency.py:418-441 | when the levels with assessments come first and share one percent proficient, the stability percent is that percent, the weights of the present levels adding up to 30 |
| StateProficiency.SingleLevelPercent | StateCode/proficiency.py:418-425 | with one level the stability percent equals that level's percent proficient (weight 30 of 30) |
| StateProficiency.StabilityPoints | StateCode/proficiency.py:439-442 | stability points are clamped to 0..30 |
| StateProficiency.StabilityShare | StateCode/proficiency.py:439-442 | the clamped stability share lies in 0..30 |
| StateProficiency.StabilityMatchesShare | StateCode/proficiency.py:439-442 | the stability formula is the same capped share as the regular one with weight 30 |
| StateProficiency.K8Score | StateCode/proficiency.py:451-454 | the K-8 score exists exactly when regular points do, is at least both scores and is one of them |
| StateProficiency.K8ScoreOfEqual | StateCode/proficiency.py:454 | equal scores give that score |
| StateProficiency.K8Points | StateCode/proficiency.py:439-454 | K-8 proficiency exists exactly when regular points do, lies in 0..30 and never falls below the regular points |
| StateProficiency.K8PointsValue | StateCode/proficiency.py:439-454 | K-8 proficiency is the better of the regular and stability points |
| StateProficiency.SchoolK8Points | StateCode/proficiency.py:213-454 | from a school's FAY groups, K-8 proficiency exists exactly when regular points on all students do, lies in 0..30 and never falls below them |
| StateProficiency.K8SingleLevel | StateCode/proficiency.py:418-454 | with all students in one level the stability model gives exactly the regular points |
| StateProficiency.SingleLevelMatchesRegular | StateCode/proficiency.py:213-454 | a school whose groups collapse to one level scores exactly its regular points |
| StateProficiency.SingleGroupIsTotal | StateCode/proficiency.py:227-228 | with levels 2 and 3 empty, level 1 holds all the counts |
| StateGrowth.HalfWeight | StateCode/GROWTH.py:40-44 | a model has a per-subject half weight exactly when it has a Growth weight, and the half weight is that weight over 200 |
| StateGrowth.OnlyK8ScoresGrowth | StateCode/GROWTH.py:40-44 | only the K-8 model scores growth, with a half weight of 0.25 |
| StateGrowth.GrowthGradeRules | StateCode/GROWTH.py:61-63 | a record counts as grade 11 exactly when its cohort is the next fiscal year's; other grades are kept except a real grade 11, and a cohort-11 record is never a K-8 growth grade |
| StateGrowth.ModelRecords | StateCode/GROWTH.py:48-70 | a model's records are exactly the integrity, FAY, ELA/Math, categorised records in the model's growth grades |
| StateGrowth.SubjectRecords | StateCode/GROWTH.py:114 | a subject's records all have that subject |
| StateGrowth.RecordWeight | StateCode/COMPONENTS.py:80-92 | every growth band weighs between 0 and 2 |
| StateGrowth.BandedCount | StateCode/GROWTH.py:113-115 | no more records are banded than there are records |
| StateGrowth.WeightTotalWithin | StateCode/GROWTH.py:118-124 | the weight total of the banded records lies between 0 and twice their number |
| StateGrowth.BandsFacts | StateCode/COMPONENTS.py:80-92 | the twelve bands are distinct and cover every prior level and growth category |
| StateGrowth.PercentDotScales | StateCode/GROWTH.py:115-124 | the sum of band percents times weights, times the record count, is the weighted count times 100 |
| StateGrowth.WeightedCountsCons | StateCode/GROWTH.py:115-119 | adding a record adds its band's weight to the per-band weighted counts, or nothing when it has no band in the list |
| StateGrowth.WeightTotalByBands | StateCode/GROWTH.py:115-124 | summing weights record by record equals summing band counts times band weights |
| StateGrowth.WeightedCountsEmpty | StateCode/GROWTH.py:115-124 | no records give a weighted count of 0 |
| StateGrowth.BandsSumIsMeanWeight | StateCode/GROWTH.py:115-124 | the summed weighted band percents are 100 times the mean band weight of the records |
| StateGrowth.SubjectPoints | StateCode/GROWTH.py:116-133 | a subject's points exist exactly when it has banded records, lie in 0..100 times the half weight, reach the cap exactly when the mean band weight reaches 1, and otherwise are the mean band weight times 100 times the half weight |
| StateGrowth.CapAgainstMean | StateCode/GROWTH.py:130-133 | the uncapped points reach the cap exactly when the mean band weight reaches 1 |
| StateGrowth.CappedAgainstMean | StateCode/GROWTH.py:130-133 | the capped points lie in 0..100 times the half weight, sit at the cap exactly when the mean band weight reaches 1, and below it are 100 times the mean band weight times the half weight |
| StateGrowth.SchoolGrowth | StateCode/GROWTH.py:109-162 | a school's growth exists exactly for a growth model with at least N distinct students and banded records in some subject; then both subjects exist (an empty one as 0), the total is their sum and lies in 0..the Growth weight |
| StateGrowth.HighGrowthCapped | StateCode/COMPONENTS.py:80-92 | one high-growth student from level 1 (weight 1.8) earns the capped 25 points |
| StateGrowth.AverageGrowthAtCap | StateCode/COMPONENTS.py:80-92 | one average-growth Proficient student earns the full 25 points |
| StateGrowth.LowGrowthScoresZero | StateCode/COMPONENTS.py:80-92 | one low-growth student from level 2 earns 0 points |
| Rules.ApplyRules | StateCode/GRADUATION.py:153-160 | assigning rules in order leaves the value unchanged when no rule holds, and otherwise gives the points of the last rule that holds |
| Rules.Select | StateCode/bonus_points.py:170-175 | a condition list picks the points of the first condition that holds, the default when none does, and never a null when the default is not null |
| Rules.Reverse | StateCode/bonus_points.py:170-175 | reversing keeps the length and puts rule k at position n-1-k |
| Rules.SelectIsReversedAssignment | StateCode/bonus_points.py:170-175 | picking the first holding condition is the same as assigning the reversed rule list in order |
| Rules.FirstHolding | StateCode/bonus_points.py:170-175 | when some rule holds there is a first one, and no earlier rule holds |
| LateSubmissions.Without | StateCode/GTG.py:200 | dropping the rows of the late-submitting schools keeps only rows of other schools, and every row of another school |
| LateSubmissions.WithoutCounts | StateCode/GTG.py:200 | a row of a school without a late row is kept as often as it occurs; a row of a late school never |
| LateSubmissions.Ids | StateCode/GTG.py:200 | the late schools are exactly the schools of the late rows |
| LateSubmissions.Replace | StateCode/GTG.py:199-201 | the late rows come last, unchanged, and every original row of a school without a late row is kept before them; no original row of a late school survives |
| LateSubmissions.ReadEligibility | StateCode/GTG.py:197 | a late row's reported eligibility is kept and a missing one reads as not eligible, so every late row has one |
| LateSubmissions.ReplaceRead | StateCode/CCRI.py:137-148 | with each late row read by a function that keeps its school: the late rows as read come last, in order; before them the original rows of the schools without a late row, in order, and every such row; no original row of a late school survives |
| LateSubmissions.ReplaceCounts | StateCode/GTG.py:199-201 | after the replacement a row occurs as often as the late rows hold it plus, when its school was not late, as often as the original rows do |
| LateSubmissions.WithoutAppend | StateCode/GTG.py:200 | dropping schools distributes over appending row lists |
| LateSubmissions.WithoutOwnIds | StateCode/GTG.py:200 | dropping every school of a list leaves nothing |
| LateSubmissions.WithoutTwice | StateCode/GTG.py:200 | dropping the same schools twice is dropping them once |
| LateSubmissions.ReplaceIdempotent | StateCode/GTG.py:224-226 | applying the same late submissions twice gives the same table as once |
| Dedup.KeepBest | StaticFile/GROWTH.py:203-205 | one record per key, each from the input, every input key kept, and the kept record ranks at least as high as every record of its key |
| Dedup.OfferRanksAll | StaticFile/GROWTH.py:203-205 | offering the first record to a list that ranks over the rest gives a list that ranks over every record |
| Dedup.KeepFirst | FederalCode/CA.py:43 | one record per key, every input key kept, and each kept record is the first of its key in list order |
| Dedup.AtLeastTransitive | StaticFile/GROWTH.py:203-205 | the ranking order is transitive |
| Dedup.Offer | StaticFile/GROWTH.py:203-205 | offering a record keeps keys distinct, adds its key, and keeps a record at least as high as both the offered one and the replaced one |
| Dedup.IndexOfKey | StaticFile/GROWTH.py:205 | the position found holds the key, and none is found exactly when the key is absent |
| Dedup.TwoTiedKeepFirst | StaticFile/GROWTH.py:203-205 | of two records with one key and one rank, only the first is kept |
| Dedup.KeepBestOfFilter | StaticFile/GROWTH.py:203-205 | after a filter, each kept record is the chosen one of its key (highest rank, first among ties) and every chosen record is kept |
| StateGraduation.RateTypeCohort | StateCode/GRADUATION.py:40-43 | only rate types 4 to 7 have a cohort |
| StateGraduation.RateTypeCohortInverse | StateCode/GRADUATION.py:40-43 | the rate-type-to-cohort map is one-to-one on 4..7 (type 4 is the cohort graduating last year, type 7 three cohorts earlier) |
| StateGraduation.Lookup | StateCode/GRADUATION.py:61-68 | a school's rate of one type is missing exactly when no 'All' row of a listed cohort has it |
| StateGraduation.RatePoints | StateCode/GRADUATION.py:223-225 | a cohort's points exist exactly when it meets the N-count and lie between 0 and the rate type's weight for a rate in 0..100 |
| StateGraduation.EligibleCells | StateCode/GRADUATION.py:220-230 | at most four cohorts are eligible |
| StateGraduation.TradPoints | StateCode/GRADUATION.py:223-246 | traditional graduation points exist exactly when all four cohorts meet the N-count, and never exceed the weight of 10 |
| StateGraduation.TradCellsSum | StateCode/GRADUATION.py:229 | with all four cohorts eligible, the summed cells are the weighted rates |
| StateGraduation.TradPointsValue | StateCode/GRADUATION.py:229-232 | the points are the weighted rates capped at 10, and reach 10 exactly when the weighted rates do |
| StateGraduation.UniformRates | StateCode/GRADUATION.py:223-232 | the same rate r in every cohort earns 0.12 r points, capped at 10 |
| StateGraduation.TradPointsMonotone | StateCode/GRADUATION.py:223-232 | higher rates in every cohort never earn fewer points |
| StateGraduation.TradPointsWithin | StateCode/GRADUATION.py:223-232 | non-negative rates earn points in 0..10 |
| StateGraduation.MaxEligibleRate | StateCode/GRADUATION.py:171-176 | the highest eligible rate exists exactly when some cohort meets the N-count, is at least every eligible cohort's rate and is one of them |
| StateGraduation.AltPoints | StateCode/GRADUATION.py:171-211 | alternative graduation points exist exactly when some cohort meets the N-count and never exceed the weight |
| StateGraduation.AltPointsBestCohort | StateCode/GRADUATION.py:171-211 | the alternative points are those of the best eligible cohort: at least every eligible cohort's capped points and equal to one of them |
| StateGraduation.ImprovementPoints | StateCode/GRADUATION.py:141-160 | alternative schools get no improvement points, and points need a current cohort meeting the N-count |
| StateGraduation.ImprovementIsIntended | StateCode/GRADUATION.py:153-160 | the three ordered masks give 10 for a current rate of 90 or more, otherwise (with a prior rate) 10 above a 2-point gain, 5 within 2 points and 0 below, and null without a prior rate |
| StateGraduation.ImprovementPointsIntended | StateCode/GRADUATION.py:141-160 | improvement points follow that decision on the rates, rounded to 2 places, of the cohorts meeting the N-count |
| StateGraduation.ImprovementAlwaysScored | StateCode/GRADUATION.py:153-160 | two eligible cohorts always score 0, 5 or 10 |
| StateGraduation.HighRateWithoutPriorYear | StateCode/GRADUATION.py:155 | a current rate of 90 earns the full 10 even without a prior-year cohort |
| StateSgi.IndicatorWeight | StateCode/SGI.py:61-67 | each subgroup-improvement indicator takes its positive 9-12 weight |
| StateSgi.MaintainedOrImproved | StateCode/SGI.py:191-198 | a subgroup's flag is null exactly when either year misses the N-count, and otherwise is 1 exactly when the indicator's improvement rule holds, else 0 |
| StateSgi.EqualRatesDiffer | StateCode/SGI.py:192-346 | unchanged rates count as maintained for proficiency, never for graduation (at or below 90), and for dropout only when the rate rounds to 0 |
| StateSgi.HighGraduationRateCounts | StateCode/SGI.py:238 | a graduation rate above 90 at 2 places counts whatever the prior year |
| StateSgi.RulesMonotone | StateCode/SGI.py:192-346 | a higher proficiency rate or a lower dropout rate never loses the flag |
| StateSgi.SgiPoints | StateCode/SGI.py:141-156 | indicator points are null exactly when every subgroup flag is null, and otherwise are the weight times the share of flagged subgroups, in 0..weight |
| StateSgi.SgiPointsExtremes | StateCode/SGI.py:141-156 | all eligible subgroups improving earns the full weight; none improving earns 0 |
| StateSgi.SumSkipNullAllOnes | StateCode/SGI.py:142 | the improved count of all-1 flags is the number of eligible subgroups |
| StateSgi.SumSkipNullAllZeros | StateCode/SGI.py:142 | all-0 flags sum to 0 |
| StateSgi.Flags | StateCode/SGI.py:345-354 | every flag is 0, 1 or null, one per subgroup at most (the unknown-ethnicity subgroup has no proficiency flag) |
| StateSgi.SchoolPoints | StateCode/SGI.py:141-156 | a school's indicator points lie in 0..the indicator weight |
| StateSgi.IneligibleSubgroupIgnored | StateCode/SGI.py:196-198 | a subgroup under the N-count changes nothing |
| StateSgi.FlagsOfIneligible | StateCode/SGI.py:196-198 | a subgroup under the N-count adds a null flag, or no flag for the unknown-ethnicity subgroup of SGPI |
| StateSgi.SgiPointsSkipsNull | StateCode/SGI.py:141-145 | a null flag is counted in neither the improved sum nor the eligible count, so it leaves the points unchanged |
| StateSgi.ProficiencyPair | StateCode/SGI.py:336-341 | a subgroup's proficiency rate exists exactly when some student was tested and lies in 0..130 |
| StateSgi.TwoOfThreeExample | StateCode/SGI.py:141-145 | two improving subgroups of three eligible earn 2/3 of a 10-point weight |
| StateAr.Percent | StateCode/AR.py:167 | a part-of-whole percent lies in 0..100 and times the whole is the part times 100 |
| StateAr.ReductionPoints | StateCode/AR.py:333-335 | reduction points are null under the current year's N-count |
| StateAr.ReductionIsIntended | StateCode/AR.py:327-329 | the three ordered assignments give full points at or under the target, otherwise full points when the percent did not rise and 0 when it rose, and null without a current percent (or without a prior one above the target) |
| StateAr.ChronicAbsencePoints | StateCode/AR.py:326-335 | chronic absence earns 2 at or under 4% or when it did not rise, 0 when it rose above 4%, null under the N-count or without the percents the decision needs |
| StateAr.G3ElaPoints | StateCode/AR.py:388-397 | grade 3 ELA earns 5 at or under 12% minimally proficient or when that did not rise, 0 otherwise, null under the N-count or without the percents the decision needs |
| StateAr.UnderTargetScores | StateCode/AR.py:328-390 | a school at or under the target earns the full points whatever its prior year |
| StateAr.TwoCriteria | StateCode/AR.py:467-469 | two 2.5-point criteria give 5 when both hold, 2.5 when one does and null when neither does |
| StateAr.G8MathPoints | StateCode/AR.py:471-475 | grade 8 math points are null under the current year's N-count |
| StateAr.G8MathValues | StateCode/AR.py:458-469 | above the N-count, grade 8 math is null exactly when no highly or minimally proficient criterion holds, and otherwise is 2.5 or 5 after the cap |
| StateAr.SubgroupPoints | StateCode/AR.py:261-271 | a subgroup earns points exactly when both years meet the N-count and both percents exist: 2 when the current percent is higher at 2 places, 0 when it is not |
| StateAr.SubgroupColumn | StateCode/AR.py:261-273 | each subgroup cell is null or within 0..2, one per subgroup at most (the unknown-ethnicity subgroup is dropped) |
| StateAr.SubgroupSummary | StateCode/AR.py:133-135 | the subgroup summary is null exactly when every subgroup cell is, and is capped to 0..6 |
| StateAr.InGrades | StateCode/AR.py:154 | a record is kept, as often as it occurs, exactly when it is in grades -1 through 8 |
| StateAr.Kept | StateCode/AR.py:154-158 | one record per student and school, each from the input and in grades -1 through 8, ranking at least as high (inclusion first) as every in-grade record of its key, and the first such record in file order among ties |
| StateAr.KeptStudent | StateCode/AR.py:154-158 | every in-grade student and school keeps a record through the de-duplication |
| StateAr.IncludedPreferred | StateCode/AR.py:156-158 | a student with an included in-grade record keeps an included record |
| StateAr.TiedKeptFirst | StateCode/AR.py:156-158 | of two in-grade records of one student and school that tie on the sort keys, the first is kept and the second dropped |
| Seqs.Filter | StateCode/AR.py:154 | the kept rows satisfy the condition and come from the table, and every row that satisfies it is kept |
| Seqs.FilterCounts | StateCode/AR.py:154 | a row that satisfies the condition is kept as often as it occurs; no other row is kept |
| Seqs.FilterAppend | StateCode/AR.py:154 | masking a table in two pieces and joining them is masking the whole table, so the kept rows keep table order |
| Seqs.FilterOne | StateCode/AR.py:154 | a single row is kept exactly when it satisfies the condition |
| Seqs.Count | StateCode/EL.py:117-120 | the number of rows meeting a condition is the length of the masked table, so never more than the rows |
| Seqs.FilterAll | FederalCode/CA.py:86-89 | masking a table by a condition every row meets keeps the whole table |
| StateAr.FayOnly | StateCode/AR.py:159 | a record is kept, as often as it occurs, exactly when it is FAY |
| Dedup.FilterKeysDistinct | StateCode/AR.py:157-159 | keeping some of the rows of a table with one row per key leaves one row per key |
| StateAr.SpedStudents | StateCode/AR.py:154-159 | one record per student and school, from the input, in the grade range and FAY; a record is counted, as often as it occurs, exactly when it is the de-duplicated record of its student and is FAY |
| StateAr.FayKeptCounted | StateCode/AR.py:158-159 | a de-duplicated record that is FAY is counted |
| StateAr.CountedIsKept | StateCode/AR.py:157-159 | a counted record of a student and school is that key's de-duplicated record |
| StateAr.SpedStudentsIff | StateCode/AR.py:157-159 | a student and school is counted exactly when its de-duplicated record is FAY, the FAY filter coming after the de-duplication |
| StateAr.SpedStudentCounted | StateCode/AR.py:154-159 | every in-grade student and school has a de-duplicated record, and is counted exactly when that record is FAY |
| StateAr.TiedRecordsKeepFirst | StateCode/AR.py:156-159 | when a student's two tied included records are a FAY one then a non-FAY one, the FAY one is counted; the de-duplication does not pick the FAY record by preference |
| StateAr.SchoolOf | StateCode/AR.py:164-165 | a school's included students are no more than its students, which are no more than the records |
| StateAr.EligiblePercents | StateCode/AR.py:171-172 | the averaged percents are, one for one, the inclusion percents of the schools meeting the N-count |
| StateAr.EligibleSchools | StateCode/AR.py:170-172 | a school counts toward the mean, as often as it occurs, exactly when it meets the N-count |
| StateAr.EligibleNonempty | StateCode/AR.py:170-172 | some school counts toward the mean exactly when some school meets the N-count |
| StateAr.StatewideMean | StateCode/AR.py:171-172 | the statewide inclusion mean exists exactly when some school meets the N-count and is the sum of those schools' percents over their number, rounded to 2 places |
| StateAr.UniformStatewideMean | StateCode/AR.py:171-172 | when every school meeting the N-count has the same percent, the statewide mean is that percent at 2 places |
| StateAr.SpedPoints | StateCode/AR.py:175-180 | inclusion points are null exactly under the N-count or without a mean, 2 exactly when the rounded percent is above the mean and 0 exactly when it is not |
| StateAr.SomeEligibleSchoolEarnsZero | StateCode/AR.py:171-176 | whenever some school meets the N-count, some eligible school is at or below the mean and earns 0 |
| StateAr.TotalPoints | StateCode/AR.py:138-145 | total AR points are null exactly when all five parts are, and never exceed the AR weight |
| StateAr.TotalWithin | StateCode/AR.py:143-145 | the total is the sum of the present parts capped at 10, within 0..10 |
| StateAr.AllPartsMaximal | StateCode/AR.py:143-145 | parts at their maxima (5+5+2+2+6 = 20) are capped to 10 |
| StateCcri.Cap | StateCode/CCRI.py:25-29 | the self-reported CCRI cap is the model's weight: 35 for alternative and 20 for traditional high schools |
| StateCcri.Score | StateCode/CCRI.py:41-81 | only current-year rows are scored; a missing eligibility counts as eligible; points are null exactly for ineligible schools, 0 for eligible schools that reported none, and never above the cap; alternative and ineligible schools get no bonus, and an eligible traditional school gets the bonus it reported |
| StateCcri.MissingEligibilityIsEligible | StateCode/CCRI.py:58-59 | a row without an eligibility scores as an eligible row |
| StateCcri.ScoredPoints | StateCode/CCRI.py:75-81 | an eligible school's reported points are kept up to the cap, capped above it, and no points scores as 0 |
| StateCcri.AsLate | StateCode/CCRI.py:138 | a late row's eligibility is read as a reported value kept and a missing one not eligible, and nothing else in the row changes |
| StateCcri.LateMissingEligibilityIsIneligible | StateCode/CCRI.py:138 | a late row without an eligibility scores as ineligible, with no points and no bonus, where an original row without one scores as eligible |
| StateGtg.CheckFrame | StateCode/GTG.py:52-54 | the frame is accepted exactly when it has FiscalYear, SchoolCode and Alternative; otherwise the error lists exactly the missing ones |
| StateGtg.MaxPointsAreWeights | StateCode/GTG.py:31-33 | each GTG part's 10-point cap is its alternative-model weight |
| StateGtg.Limit | StateCode/GTG.py:123-161 | a limited value is null exactly when the input is, never exceeds 10, and is the input or 10 |
| StateGtg.PersistencePoints | StateCode/GTG.py:97-101 | every alternative school has 100% available; persistence points exist exactly with a rate, never exceed 10 and reach 10 exactly at a rate of 1 |
| StateGtg.PersistenceMonotone | StateCode/GTG.py:101 | a higher persistence rate never earns fewer points, and a rate of 1 earns 10 |
| StateGtg.ReportPoints | StateCode/GTG.py:122-136 | a school that did not report earns 0 with 100% available; otherwise its points are the limited reported points; percent earned exists exactly for an eligible school with students and is students met per 100; an ineligible school has neither percent |
| StateGtg.IneligibleKeepsPoints | StateCode/GTG.py:131-132 | ineligibility blanks the percents but keeps the reported points |
| StateGtg.NotReportedIsZero | StateCode/GTG.py:135-136 | not reporting earns 0, while an eligible school with no points has none |
| StateGtg.AsLate | StateCode/GTG.py:197 | a late row reported eligible scores exactly as it would have; a late row reported ineligible or with no eligibility scores as an ineligible school (points capped, no percents); nothing but the eligibility changes |
| StateGtg.LateWithoutEligibilityIneligible | StateCode/GTG.py:197 | a late row without an eligibility, which the original file would leave unreported at 0 points, is scored as an ineligible school with its limited points |
| StateGtg.LateSchoolsReported | StateCode/GTG.py:197-201 | every row of a late-submitting school carries a reported eligibility |
| StateBonus.SpedModel | StateCode/COMPONENTS.py:172-176 | a grade counts toward SPED enrollment exactly when it is a k-8 or 9-12 grade, and then toward that traditional model |
| StateBonus.SpedPercent | StateCode/bonus_points.py:150-152 | the SPED percent is null exactly without FAY students, is capped to 0..100, reaches 100 exactly when SPED students are at least the FAY students, and is otherwise SPED per 100 FAY |
| StateBonus.CountedPercents | StateCode/bonus_points.py:155-156 | the averaged percents are, one for one, the SPED percents of the counted schools, each in 0..100 |
| StateBonus.CountedSchools | StateCode/bonus_points.py:155-156 | a school counts toward the SPED average, as often as it occurs, exactly when it has at least N SPED students and some FAY student |
| StateBonus.CountedNonempty | StateCode/bonus_points.py:155-156 | some school counts toward the average exactly when some school is counted |
| StateBonus.SpedAverage | StateCode/bonus_points.py:155-156 | the statewide SPED average exists exactly when some school is counted, is the sum of the counted schools' percents over their number, and lies in 0..100 |
| StateBonus.UniformSpedAverage | StateCode/bonus_points.py:155-156 | when every counted school has the same SPED percent, that percent is the average |
| StateBonus.SpedBand | StateCode/bonus_points.py:170-175 | a band exists exactly when both the percent and the average do |
| StateBonus.SpedBandCountsFractions | StateCode/bonus_points.py:170-175 | the band is 0, 1, 1.5 or 2 as the percent reaches none, one, two or all of 60%, 70% and 80% of the average |
| StateBonus.SpedBandMonotone | StateCode/bonus_points.py:170-175 | a higher SPED percent never earns fewer points |
| StateBonus.SpedBonus | StateCode/bonus_points.py:175-176 | the SPED bonus exists exactly for a school with more than N SPED students, some FAY student, and a statewide average |
| StateBonus.ExactlyNCountsButEarnsNothing | StateCode/bonus_points.py:155-176 | a school with exactly N SPED students counts toward the average but earns no bonus |
| StateBonus.TopCountedSchoolEarnsFull | StateCode/bonus_points.py:155-176 | some counted school is at or above the average and, with more than N SPED students, earns the full 2 |
| StateBonus.ScienceModel | StateCode/COMPONENTS.py:164-169 | only grades 5, 8 and 11 count toward science, and never for Alt 9-12 |
| StateBonus.ScienceProficient | StateCode/bonus_points.py:293-294 | science percent proficient is null exactly without takers, lies in 0..100, and is levels 3 and 4 per 100 takers |
| StateBonus.PercentTested | StateCode/bonus_points.py:280-282 | percent tested is null when either count is missing and is tested per 100 enrolled |
| StateBonus.ScienceEligibleIff | StateCode/bonus_points.py:298-320 | a school is eligible exactly when more than 94.5% of its enrolled students were tested (94.5 rounds to the even 94) |
| StateBonus.ScienceSample | StateCode/bonus_points.py:298-300 | the statewide sample is, one for one, the percents proficient of the eligible schools with takers, each in 0..100 |
| StateBonus.ScienceSchools | StateCode/bonus_points.py:298-300 | a school is in the science sample, as often as it occurs, exactly when it is eligible and has FAY takers |
| StateBonus.ScienceSchoolsNonempty | StateCode/bonus_points.py:298-300 | the sample has a school exactly when some school is eligible and has FAY takers |
| StateBonus.ScienceAverage | StateCode/bonus_points.py:298-300 | the statewide science average exists exactly when some eligible school has takers, is the sum of the sample over its size, and lies in 0..100 |
| StateBonus.UniformScienceAverage | StateCode/bonus_points.py:298-300 | when every sampled school has the same percent proficient, that percent is the average |
| StateBonus.ScienceVariance | StateCode/bonus_points.py:298-300 | the sample variance is non-negative and exists only with an average |
| StateBonus.ScienceBand | StateCode/bonus_points.py:311-317 | the science band is 0, 1.5 or 3 |
| StateBonus.ScienceBandCases | StateCode/bonus_points.py:311-317 | the band is 3 exactly from the average plus one standard deviation and 1.5 exactly strictly between the two |
| StateBonus.ScienceAtAverage | StateCode/bonus_points.py:311-317 | a school exactly at the average earns 0 (falling to the default), or 3 when the deviation is 0 |
| StateBonus.ScienceMissingStatistics | StateCode/bonus_points.py:317 | a missing percent, average or deviation falls to the default 0 |
| StateBonus.ScienceBandMonotone | StateCode/bonus_points.py:311-317 | a higher science percent never earns fewer points |
| StateBonus.ScienceBonus | StateCode/bonus_points.py:317-320 | the science bonus exists exactly for eligible schools and is 0, 1.5 or 3 |
| StateBonus.AspireTestedWithin | StateCode/bonus_points.py:380-392 | no more students are tested than enrolled in the window, and all are when every window student took both tests |
| StateBonus.AspirePoints | StateCode/bonus_points.py:396-406 | ACT Aspire points are null exactly with nobody enrolled, 3 exactly from 95% tested, 1.5 exactly from 90% below 95%, and 0 exactly below 90% |
| StateBonus.AspireBonus | StateCode/bonus_points.py:395-406 | a school's ACT Aspire bonus is null exactly when nobody was enrolled in the window |
| StateBonus.EveryoneTestedEarnsFull | StateCode/bonus_points.py:399-403 | when every window student took both tests the school earns the full 3 |
| StateBonus.CohortRates | StateCode/bonus_points.py:443-452 | a subgroup's rates are, one for one, the rates of its selected rows |
| StateBonus.CohortRows | StateCode/bonus_points.py:440-447 | a row is selected, as often as it occurs, exactly when it is an alternative school's five-year rate of the cohort two years back with at least 10 students, for the subgroup |
| StateBonus.CohortRowsNonempty | StateCode/bonus_points.py:440-447 | a subgroup has a selected row exactly when some row is selected for it |
| StateBonus.FiveYearAverage | StateCode/bonus_points.py:452 | a subgroup's statewide average exists exactly when it has a selected row and is the sum of the selected rates over their number, rounded to 2 places |
| StateBonus.UniformFiveYearAverage | StateCode/bonus_points.py:452 | when every selected row of a subgroup has the same rate, the average is that rate at 2 places |
| StateBonus.FiveYearPoints | StateCode/bonus_points.py:453-454 | the five-year bonus is 0 or 2 |
| StateBonus.FiveYearNearEightyPercent | StateCode/bonus_points.py:453-454 | a rate half a hundredth above 80% of the average earns 2 and one half a hundredth below earns 0 |
| StateBonus.FiveYearAtAverageEarns | StateCode/bonus_points.py:452-454 | a school at or above the rounded non-negative average earns the bonus |
| StateBonus.FindSchoolRow | StateCode/bonus_points.py:457 | a school's row is missing exactly when it has no selected row of the subgroup, and otherwise is one of them |
| StateBonus.SchoolFiveYear | StateCode/bonus_points.py:440-457 | a school's subgroup bonus is null exactly without a selected row, so always for a school that is not alternative, and is otherwise 0 or 2 |
| StateBonus.TotalBonus | StateCode/bonus_points.py:82-91 | the bonus total is null exactly when all eight columns are |
| StateBonus.ModelBonusTotal | StateCode/bonus_points.py:76-91 | a model's total is null exactly when all its own bonuses are, and is otherwise their sum with missing as 0, at most 5 (k-8), 8 (9-12) or 9 (Alt 9-12) |
| StateBonus.K8Total | StateCode/bonus_points.py:76-91 | the k-8 total is null exactly when the SPED and science bonuses both are, and otherwise their sum with missing as 0 |
| StateBonus.HSTotal | StateCode/bonus_points.py:76-91 | the 9-12 total is null exactly when the SPED, science and ACT Aspire bonuses all are, and otherwise their sum with missing as 0 |
| StateBonus.AltHSTotal | StateCode/bonus_points.py:76-91 | the Alt 9-12 total is null exactly when ACT Aspire and the three graduation bonuses all are, and otherwise their sum with missing as 0 |
| StateBonus.FullBonusesReachMaximum | StateCode/bonus_points.py:82-91 | full bonuses reach each model's maximum |
| SchoolType.FormatType | StaticFile/SCHOOLTYPE.py:136-148 | the type code is 0 to 4, and is missing exactly when the top grade is missing or is 9 and above with no lowest grade |
| SchoolType.FormatSchoolType | StaticFile/SCHOOLTYPE.py:151-159 | the state school type is 1, 3 or 4, and is 3 exactly for an alternative school |
| SchoolType.FormatSchoolTypeF | StaticFile/SCHOOLTYPE.py:161-174 | the federal type code is 1 to 5, exists only for a school with a type code, and agrees with the type code for codes 1 to 3 |
| SchoolType.FederalModel | StaticFile/SCHOOLTYPE.py:194-198 | a correction of the federal model on file is the model; without one, a school with a model has a top grade |
| SchoolType.FederalModelBySpan | StaticFile/SCHOOLTYPE.py:136-175 | for a span from lo to hi: K-2 exactly when hi is at most 2 and not 0; K-8 exactly for hi 3 to 8; high school exactly when lo is 9 or above; K-11 and K-12 exactly for spans from grade 8 or below up to 9-11 and 12; no model exactly when hi is 0 |
| SchoolType.EarlyGradesSchool | StaticFile/SCHOOLTYPE.py:136-174 | a non-alternative school whose top grade is K, 1 or 2 has state type 4 and federal code 1 |
| SchoolType.StateModel | StaticFile/SCHOOLTYPE.py:182-198 | a model correction on file decides the state model |
| SchoolType.StateModelByPriority | StaticFile/SCHOOLTYPE.py:182-190 | without a correction: InEligible exactly for a first-year, private or JTED school or one below the n-count in both models; Alternative exactly for an unbarred alternative school; Non-Typical, 912 and K8 exactly by which counts reach the n-count |
| SchoolType.InGradeRange | StaticFile/SCHOOLTYPE.py:244-247 | kept records have grades -1 to 12, each is an input record with kindergarten recoded, and every input record whose recoded grade is in range is kept |
| SchoolType.Students | StaticFile/SCHOOLTYPE.py:254-255 | at most one record per school and student, each in the grade range and the first in file order of the records that rank highest for it, as the stable multi-column sort leaves them |
| SchoolType.StudentsComplete | StaticFile/SCHOOLTYPE.py:254-255 | every student with an in-range record at a school keeps one |
| SchoolType.StudentsBest | StaticFile/SCHOOLTYPE.py:254-255 | the kept record ranks at least as high as each of the student's records, in-window first and then by grade |
| SchoolType.EnrolledCount | StaticFile/SCHOOLTYPE.py:259-263 | a model's enrolment count never exceeds the number of records |
| SchoolType.CountsWithinSchool | StaticFile/SCHOOLTYPE.py:249-263 | the k-8 and 9-12 counts together never exceed the school's students |
| SchoolType.GradesAt | StaticFile/SCHOOLTYPE.py:271 | the grade list holds the grade of every student of the school and only those |
| SchoolType.Occurrences | StaticFile/SCHOOLTYPE.py:271 | a grade's student count is positive exactly when the grade occurs |
| SchoolType.QualifiesIsTwoPercent | StaticFile/SCHOOLTYPE.py:271-273 | the one-in-fifty test is the same as the grade's percentage of students being at least 2 |
| SchoolType.MinQualifying | StaticFile/SCHOOLTYPE.py:273-275 | the result is missing exactly when no candidate qualifies, and is otherwise a qualifying candidate no higher than any other |
| SchoolType.MaxQualifying | StaticFile/SCHOOLTYPE.py:273-275 | the result is missing exactly when no candidate qualifies, and is otherwise a qualifying candidate no lower than any other |
| SchoolType.GradeSpan | StaticFile/SCHOOLTYPE.py:271-275 | MinGrade and MaxGrade are both present or both missing, both qualify, MinGrade is at most MaxGrade, and every qualifying grade lies between them |
| SchoolType.OccurrencesCover | StaticFile/SCHOOLTYPE.py:271 | when every grade lies in a window, the counts of the window's grades add up to the number of students |
| SchoolType.OccurrencesFromBound | StaticFile/SCHOOLTYPE.py:271-273 | when no grade of an n-grade window qualifies, fifty times the window's students is at most n times one less than the school's students |
| SchoolType.SomeGradeQualifies | StaticFile/SCHOOLTYPE.py:271-275 | a school with any student in range always has a grade span |
| StaticGrowth.SgpCategory | StaticFile/GROWTH.py:151-161 | a growth percentile has a category 0 to 2, and has none exactly when it is missing, 0 or below, or above 100 |
| StaticGrowth.SgpCategoryMonotone | StaticFile/GROWTH.py:151-159 | a higher percentile never falls in a lower category |
| StaticGrowth.SgpCategoryIntervals | StaticFile/GROWTH.py:151-159 | low growth is exactly (0, 34), average exactly [34, 67) and high exactly [67, 100] |
| StaticGrowth.CategoriesHaveWeights | StaticFile/GROWTH.py:151-161 | every category earns a growth weight at every prior level, 0 exactly for percentiles below 34 |
| StaticGrowth.AchievementLevel | StaticFile/GROWTH.py:138-143 | a mapped achievement level is 1 to 4 |
| StaticGrowth.AchievementLevelRoundTrip | StaticFile/GROWTH.py:138-143 | the level map is one-to-one: each level's name maps back to it, and each mapped name is its level's name |
| StaticGrowth.CodeFay | StaticFile/GROWTH.py:257-261 | the coded status is missing exactly when the input is, is 1 exactly for an input of 1 or more, and otherwise keeps the input |
| StaticGrowth.CodeFayIdempotent | StaticFile/GROWTH.py:257-261 | coding a status twice changes nothing |
| StaticGrowth.EllStatus | StaticFile/GROWTH.py:356 | the ELL status is 0 or 1, and 1 exactly for a present value of 1 or more |
| StaticGrowth.HighestScores | StaticFile/GROWTH.py:319-321 | at most one assessment per student, subject and assessed grade, each an input record and the first in file order of the test's highest-ranking records |
| StaticGrowth.HighestScoresComplete | StaticFile/GROWTH.py:319-321 | every test a student took keeps a record |
| StaticGrowth.HighestScoresBest | StaticFile/GROWTH.py:203-205 | the kept record has the highest enrolled grade of the test's records and, within that grade, the highest scale score |
| StateTotals.LetterOfGpa | StateCode/ADEConnect.py:551-570 | a whole number of grade points has a letter exactly when it is 0 to 4, and the letter's points are that number |
| StateTotals.GpaRoundTrip | StateCode/ADEConnect.py:551-570 | a letter mapped to grade points and back is the same letter |
| StateTotals.Cuts | StateCode/ADEConnect.py:84-98 | each model has five bands, A to F in order |
| StateTotals.BandLetter | StateCode/ADEConnect.py:487-490 | a total has no letter exactly when no band holds it, and otherwise has the letter of a band holding it |
| StateTotals.BandsDescending | StateCode/ADEConnect.py:84-98 | each band lies wholly above every band after it, so no two bands overlap |
| StateTotals.LetterIsBand | StateCode/ADEConnect.py:84-98 | a total inside a band gets exactly that band's letter |
| StateTotals.GridTotalGraded | StateCode/ADEConnect.py:84-98 | every whole number of hundredths from 0 to 130 gets a letter under every model |
| StateTotals.OffScaleUngraded | StateCode/ADEConnect.py:84-98 | a total below 0 or above 130 gets no letter |
| StateTotals.UnroundedTotalUngraded | StateCode/ADEConnect.py:89-93 | a total between two bands' hundredths, such as 81.995 under 9-12, gets no letter |
| StateTotals.LetterMonotone | StateCode/ADEConnect.py:84-98 | a higher total never gets a lower letter |
| StateTotals.WeightColumn | StateCode/ADEConnect.py:468-472 | the weight column holds the model's weight exactly where the component has points and the model weighs it, and is null elsewhere |
| StateTotals.PointColumn | StateCode/ADEConnect.py:462-476 | the point column holds the school's points exactly where the component is scored, and is null elsewhere |
| StateTotals.TotalPointsEligible | StateCode/ADEConnect.py:462-474 | points eligible are null exactly when no component is scored, and are otherwise a positive whole number |
| StateTotals.EligibleNullIffUnscored | StateCode/ADEConnect.py:462-474 | points eligible are null exactly when no component the model weighs has points |
| StateTotals.TotalPointSum | StateCode/ADEConnect.py:476 | the point sum is null exactly when the points eligible are |
| StateTotals.PercentageEarned | StateCode/ADEConnect.py:478 | the percentage earned is null exactly when the points eligible are |
| StateTotals.PointSumWithinEligible | StateCode/ADEConnect.py:474-476 | with each scored component within its weight, the point sum lies between 0 and the points eligible |
| StateTotals.PercentageWithin | StateCode/ADEConnect.py:474-478 | with each scored component within its weight, the percentage earned lies between 0 and 100 |
| StateTotals.FullPointsEarnHundred | StateCode/ADEConnect.py:474-478 | full points on every scored component earn exactly 100% |
| StateTotals.RaiseColumns | StateCode/ADEConnect.py:468-476 | raising one component's points leaves the weight column alone and never lowers the point sum |
| StateTotals.PercentOfMonotone | StateCode/ADEConnect.py:476-478 | the rounded percentage of a rounded sum never falls as the sum grows |
| StateTotals.PercentageMonotone | StateCode/ADEConnect.py:468-478 | raising one component's points keeps the points eligible and never lowers the percentage earned |
| StateTotals.UnweightedComponentIgnored | StateCode/ADEConnect.py:464-478 | points for a component the model does not weigh change neither the points eligible nor the percentage earned |
| StateTotals.TotalBonus | StateCode/ADEConnect.py:481 | the bonus is null exactly when both bonus inputs are, and is otherwise their sum with a null as 0 |
| StateTotals.TotalPointsEarned | StateCode/ADEConnect.py:481-483 | the total earned is null exactly when the percentage and both bonuses are, and is otherwise their sum, a null as 0, rounded to 2 places |
| StateTotals.NoBonusKeepsPercentage | StateCode/ADEConnect.py:478-483 | without bonus points the total earned equals the percentage earned |
| StateTotals.BonusNeverLowers | StateCode/ADEConnect.py:478-483 | non-negative bonus points never put the total earned below the percentage earned |
| StateTotals.ModelGrade | StateCode/ADEConnect.py:485-496 | the grade is NR exactly when the points eligible are null or below the model's threshold; a letter only when grades are produced and the total is in that letter's band; only P or NR without produced grades; no grade exactly for a rated school whose total lies in no band |
| StateTotals.FinalGrade | StateCode/ADEConnect.py:498-505 | an InEligible school is NR, a Non-Typical school P, and any other keeps its model grade |
| StateTotals.EligibleSchoolGetsLetter | StateCode/ADEConnect.py:474-505 | a rated school with enough points eligible, points within the weights and at most 30 bonus points always gets a letter |
| StateTotals.PendingWithoutGrades | StateCode/ADEConnect.py:491-505 | without produced grades every school's grade is P or NR |
| StateTotals.Share | StateCode/ADEConnect.py:418-419 | a model's share is null exactly when nobody is enrolled, lies in 0..100, and is 100 or 0 for a school enrolled under one model |
| StateTotals.SharesComplement | StateCode/ADEConnect.py:418-419 | the two shares add up to 100 within a hundredth |
| StateTotals.Weighted | StateCode/ADEConnect.py:422-428 | a weighted value is null exactly when the value or the share is |
| StateTotals.Blend | StateCode/ADEConnect.py:422-428 | the blend is null exactly when both parts are, and is otherwise their sum, a null as 0, rounded to 2 places |
| StateTotals.HybridGrade | StateCode/ADEConnect.py:433-445 | the hybrid grade is NR exactly when the hybrid points eligible are null or below 50 |
| StateTotals.HybridEligibleNull | StateCode/ADEConnect.py:418-424 | for a school with any enrolment, the hybrid points eligible are null exactly when neither model has points eligible |
| StateTotals.SingleModelHybrid | StateCode/ADEConnect.py:418-424 | a school enrolled only under K8 gets its K8 points and points eligible back, rounded to 2 places |
| StateTotals.SchoolLetter | StateCode/ADEConnect.py:543-558 | a school's letter comes from one of its three summary grades, and a school with a non-typical letter always has one |
| StateTotals.SchoolLetterFromOwnModel | StateCode/ADEConnect.py:543-558 | a K8 school's letter is its K8 letter, and a 912 or alternative school's letter is its 9-12 letter |
| StateTotals.GpaColumn | StateCode/ADEConnect.py:551-563 | the column holds a school's grade points exactly for the district's lettered schools |
| StateTotals.DistrictGpa | StateCode/ADEConnect.py:563-567 | the district mean is null exactly when the district has no lettered school, and otherwise is the sum of its lettered schools' grade points over their number, in 0..4 |
| StateTotals.DistrictGrade | StateCode/ADEConnect.py:566-580 | the district gets a letter exactly when it has a lettered school, whose grade points are the district mean rounded half to even; otherwise NR when grades are produced and P when not |
| StateTotals.UniformDistrict | StateCode/ADEConnect.py:551-570 | a district whose lettered schools share one letter gets that letter |
| StateTotals.TwoSchoolDistrict | StateCode/ADEConnect.py:565-567 | a district whose lettered schools have grade points a and b has the mean (a + b) / 2 |
| StateTotals.PairColumn | StateCode/ADEConnect.py:551-563 | two rows of a district lettered l1 and l2 put exactly the grade points of l1 and l2 in the district's column |
| StateTotals.DistrictGradeOfPair | StateCode/ADEConnect.py:565-570 | a district of two lettered schools gets a letter, whose grade points are their mean rounded half to even |
| StateTotals.DistrictTiesRoundToEven | StateCode/ADEConnect.py:565-570 | a mean exactly halfway between two grade points goes to the even one: a B and a C school make a C district, an A and a B school an A district |
| Nullable.Suppress | FederalCode/DROPOUT.py:90 | a value is reported exactly when it is present and its count reaches the n-count, and is then unchanged |
| Nullable.PresentValues | StateCode/EL.py:151 | the present values of a column are empty exactly when every entry is null, each comes from a present entry, every present entry is among them, and each value occurs as often as it is present |
| Numeric.Sort | FederalCode/EL.py:296-297 | the sorted sample is ordered and a permutation of the sample |
| Numeric.PercentileFiftyIsMedian | FederalCode/GROWTH.py:99 | the midpoint 50th percentile of a sorted sample is its median |

## Left out

- Database and file I/O. This covers SQL reads and uploads, `fill_table`, and the Excel reads. The model's inputs are the rows those reads would return.
- Historical stitching. This covers `get_csi_historical`, `get_atsi_historical`, `get_historic_*`, `retrieve_results`, `calculate_csi_G` and the first-kept de-duplication of historical dropout rows. These only read and merge earlier years' tables.
- Presentation. This covers drilldown and summary table layout, column renames and suffixes, `pull_out_*`, `round_numeric_cols`, and the '-Alt' suffix written after alternative schools' letters. The district grade reads letters without the suffix.
- pandas mechanics. groupby, pivot, merge and value_counts are replaced by explicit per-school records. Where a scorer counts distinct students, the model takes those counts as inputs. This applies to SPED enrolment, science and ACT Aspire counts, and EL-FAY counts. De-duplication itself is modelled where the scorer does it on student rows.
- `ElBanding.SampleStd`: the square root is a function parameter, since square roots of reals are outside Dafny's arithmetic. Only the sample variance's non-negativity is proved about the value under the root.
- `Numeric.RoundTo`: `.round(2)`, `.round(4)` and Python's `round(x, 2)` are modelled as half-up rounding. numpy and Python round an exact tie to even, but a binary float is practically never an exact tie at 2 or 4 places. Whole-number rounding (`.round()`, `.round(0)`) is half-to-even, as `Numeric.RoundHalfEven`, because ties such as 2.5 and 94.5 occur there.
- Floating point in general. Rates are exact reals, so a division by zero that would give infinity is treated as null, as 0/0 is.
- Module-level script lines of the state composite and the CCRI module.
- The federal `get_federal_identifications` stub and the TSI placeholder columns, which carry no behaviour.
- `FederalTotals.Threshold`: modelled as the intended pure function of the threshold sample. `_calculate_csi_threshold` is declared without `self`, so called as a method it would fail before computing anything.
- `StateProficiency.FoldSmall`: FAY levels are grouped as 1, 2 and 3. A FAY value outside 1..3 takes no part in the collapsing.
- `LateSubmissions.ReplaceRead`: the late rows' own selection is applied before they are passed in: for CCRI the fiscal year and the traditional or alternative split by the model text, for GTG the fiscal year, the row type and the alternative schools.
- `ElBanding.ReferenceStats`: an empty reference sample gives no mean and no deviation. `np.percentile` raises an error on an empty sample (FederalCode/EL.py:296-297, StateCode/EL.py:144-145), so the source would stop there instead.
- `StateBonus.CohortRows`: the alternative flag of a graduation-rate row is an input, the school-type file's flag joined to the row. The subgroup filter of the query is the three-valued cohort type, so rows of other types cannot be written.
- `StaticGrowth.EllStatus`: `ELL_STATUS` and `TEST_MODE` text reformatting beyond the 0/1 rule is left out.
- The tuition-payer update of the school-type file, its first-year, private and JTED look-ups, and its "Alternative" flag written back from the state model. The flags are inputs to `SchoolType.StateModel`.
- `FederalConfig.ParseNumber`: decimal text only, with white space, an optional sign and an optional point. `pd.to_numeric` also reads exponent notation ("1e3") and the spellings of infinity, which the model reads as null. White space counts only as space, tab, carriage return and line feed.

## Behaviour of the code worth noting

**Federal indicators**
- Federal Growth: every record whose cohort is the next fiscal year becomes grade 11, whatever its grade was (FederalCode/GROWTH.py:44-45).
- Federal proficiency: the per-grade enrolment behind percent tested counts all rows, inside the testing window or not.
- Federal proficiency: the 95% multiplier also applies to ATSI K-2 rows, because the line exempting them is commented out.
- Federal proficiency: points carry no upper clamp.

**Federal totals and EL reference**
- Federal totals: an empty threshold sample gives no threshold. numpy would raise an error there. `FederalTotals.Identify` takes a threshold that exists.
- EL reference: two distinct values give a zero IQR with both values outside the fence. The trimmed sample is then empty and only a rate of 0 gets a band.

**State EL**
- The percent proficient is a ratio that is scaled by 100 later.
- The fence is strict.

**State proficiency and growth**
- The multiplier is not floored.
- A school without tested, FAY or enrolled students is dropped by the merges of the tested counts (StateCode/proficiency.py:150), so its regular points are null.
- Only the k-8 model has a Growth weight, so only k-8 schools earn growth points.

**State graduation and SGI**
- Graduation Rate Improvement: a current rate of at least 90 earns full points even without a prior-year rate.
- SGI graduation: "maintained or improved" needs a current rate that is not 0 and strictly above 90, or strictly above the prior rate.
- SGI dropout: it holds when the rounded current rate is exactly 0 or below the prior rate.

**State Acceleration/Readiness**
- SPED inclusion: records are de-duplicated before the FAY filter is applied.
- SPED inclusion: the statewide mean is null when no school meets the N-count, and then no school earns points.
- CA and G3 ELA: a missing prior-year value gives null points.

**State CCRI and Growth to Graduation**
- The Alt 9-12 CCRI bonus point is null.
- CCRI: a late row's missing eligibility reads as ineligible (StateCode/CCRI.py:138), while an original row's reads as eligible.
- Growth to Graduation: a denominator of 0 gives a null percentage.
- Growth to Graduation: a late row's missing eligibility reads as ineligible (StateCode/GTG.py:197), while an original row's leaves the school unreported.

**State bonus points**
- SPED: a school with exactly N SPED students counts toward the statewide average but earns nothing.
- Science: the band selection defaults to 0.
- Science: exactly 94.5% tested rounds to 94 and is not eligible.
- ACT Aspire: percent tested is not rounded.
- Five-year graduation: only alternative schools' rows are read, and a school without a row gets a null bonus.

**State totals**
- Totals are rounded to 2 places before banding, so every total from 0 to 130 gets a letter. An unrounded total such as 81.995 would fall between two bands.
- The district mean is rounded half-to-even, so a mean of 2.5 gives C.
- Non-typical schools use the 9-12 cuts and the 9-12 threshold of 50.

**Static file**
- School type: the 2% share of a grade is exact, with no float error.
- School type: the grade span uses every de-duplicated student, while the model counts use the FAY filter.
- School type: a missing top grade gives no type code.
- Growth file: the highest-score de-duplication prefers the higher enrolled grade first, then the higher scale score.
