/** Local date-times at minute resolution.

    An instant is the number of whole minutes since 1970-01-01T00:00, a
    Thursday. Seconds and nanoseconds are not represented, so the fact that
    `withHour(7).withMinute(0)` keeps the seconds of the requested instant has
    no counterpart here. Day numbers, hours and days of the week are derived
    with floor division, as `LocalDateTime` does. */
module Tempo {

  type Instante = int

  const MinutosPorHora: int := 60
  const MinutosPorDia: int := 24 * MinutosPorHora

  /** Days of the week numbered as `DayOfWeek` ordinals: Monday is 0, Sunday is 6. */
  const Domingo: int := 6

  /** Day number since the epoch (floor division, also for negative instants). */
  function Dia(t: Instante): int { t / MinutosPorDia }

  function MinutoDoDia(t: Instante): int { t % MinutosPorDia }

  /** `getHour()`. */
  function Hora(t: Instante): int { MinutoDoDia(t) / MinutosPorHora }

  /** `getMinute()`. */
  function Minuto(t: Instante): int { t % MinutosPorHora }

  /** `getDayOfWeek()`: the epoch day 0 is a Thursday (ordinal 3). */
  function DiaDaSemana(t: Instante): int { (Dia(t) + 3) % 7 }

  /** Quotient and remainder are unique (for the two divisors used here). */
  lemma DivisaoEuclidiana(n: int, q: int, r: int, d: int)
    requires d == MinutosPorDia || d == MinutosPorHora
    requires n == q * d + r && 0 <= r < d
    ensures n / d == q && n % d == r
  {
    if d == MinutosPorDia {
      assert n == q * 1440 + r;
    } else {
      assert n == q * 60 + r;
    }
  }

  /** The instant of the given day at the given hour and minute. */
  function Em(dia: int, hora: int, minuto: int): (t: Instante)
    requires 0 <= hora < 24 && 0 <= minuto < MinutosPorHora
    ensures Dia(t) == dia && Hora(t) == hora && Minuto(t) == minuto
    ensures MinutoDoDia(t) == hora * MinutosPorHora + minuto
  {
    var doDia := hora * MinutosPorHora + minuto;
    var t := dia * MinutosPorDia + doDia;
    DivisaoEuclidiana(t, dia, doDia, MinutosPorDia);
    DivisaoEuclidiana(doDia, hora, minuto, MinutosPorHora);
    DivisaoEuclidiana(t, dia * 24 + hora, minuto, MinutosPorHora);
    t
  }

  /** `t.withHour(hora).withMinute(0)`: same day, the given hour, minute zero. */
  function ComHora(t: Instante, hora: int): (r: Instante)
    requires 0 <= hora < 24
    ensures Dia(r) == Dia(t) && Hora(r) == hora && Minuto(r) == 0
  {
    Em(Dia(t), hora, 0)
  }

  /** Every instant is its day, hour and minute put back together. */
  lemma Decomposicao(t: Instante)
    ensures 0 <= Hora(t) < 24 && 0 <= Minuto(t) < MinutosPorHora
    ensures t == Em(Dia(t), Hora(t), Minuto(t))
  {
    assert t == Dia(t) * MinutosPorDia + MinutoDoDia(t);
    assert MinutoDoDia(t) == Hora(t) * MinutosPorHora + MinutoDoDia(t) % MinutosPorHora;
  }

  /** Between `d@07:00` and `d@19:00`, inclusive, lie exactly the instants of
      day `d` whose hour is in [7, 19) and the instant 19:00 itself. */
  lemma JanelaDoDia(t: Instante, x: Instante)
    ensures ComHora(t, 7) <= x <= ComHora(t, 19)
        <==> Dia(x) == Dia(t) && (7 <= Hora(x) < 19 || x == ComHora(t, 19))
  {
    Decomposicao(x);
  }
}
